// The process-exit monitor of src/focus_manager.rs. After a launch the
// launcher polls the process table once per second. It gives up when the
// target has not appeared within 60 s, and it finishes when the target, once
// seen, has been gone for more than 2 s. Time is in integer milliseconds; each
// poll is a `Tick` that pairs the clock reading with a snapshot of /proc.
module FocusManager {
  import opened Options
  import opened Strings

  const POLL_INTERVAL_MS: int := 1000
  const STEAM_LAUNCH_TIMEOUT_MS: int := 60000
  const GAME_EXIT_GRACE_PERIOD_MS: int := 2000

  type U32 = x: int | 0 <= x < 0x1_0000_0000

  datatype MonitorTarget =
    | Pid(pid: U32)
    | SteamAppId(appid: string)
    | EnvVarEq(key: string, val: string)
    | CmdLineContains(pattern: string)
    | Any(targets: seq<MonitorTarget>)

  /** One entry of `all_processes()`: its `cmdline()` and `environ()`, each of
      which may fail to read. */
  datatype ProcessInfo = ProcessInfo(cmdline: Option<seq<string>>, environ: Option<map<string, string>>)

  /** A snapshot of /proc. `listed` is false when `all_processes()` fails; an
      entry is `None` when reading that process failed; `live` holds the pids
      for which `Process::new` succeeds. */
  datatype ProcTable = ProcTable(listed: bool, entries: seq<Option<ProcessInfo>>, live: set<int>)

  /** `pid as i32`: the two's-complement reinterpretation of a `u32`. */
  function AsI32(pid: U32): (r: int)
    ensures -0x8000_0000 <= r < 0x8000_0000
    ensures (r - pid) % 0x1_0000_0000 == 0
  {
    if pid < 0x8000_0000 then pid else pid - 0x1_0000_0000
  }

  predicate CmdLineMatch(e: Option<ProcessInfo>, pattern: string)
  {
    e.Some? && e.value.cmdline.Some? &&
    Contains(ToLower(Join(e.value.cmdline.value, " ")), ToLower(pattern))
  }

  predicate EnvVarMatch(e: Option<ProcessInfo>, key: string, val: string)
  {
    e.Some? && e.value.environ.Some? && key in e.value.environ.value && e.value.environ.value[key] == val
  }

  /** Some listed process has `pattern` in its space-joined argv, ignoring case. */
  ghost predicate CmdLineMatches(t: ProcTable, pattern: string)
  {
    t.listed && exists i :: 0 <= i < |t.entries| && CmdLineMatch(t.entries[i], pattern)
  }

  /** Some listed process has `key` set to exactly `val` in its environment. */
  ghost predicate EnvVarMatches(t: ProcTable, key: string, val: string)
  {
    t.listed && exists i :: 0 <= i < |t.entries| && EnvVarMatch(t.entries[i], key, val)
  }

  /** `check_cmdline`: scans the process list, returning at the first match. */
  method CheckCmdline(t: ProcTable, pattern: string) returns (found: bool)
    ensures found == CmdLineMatches(t, pattern)
  {
    if !t.listed {
      return false;
    }
    var i := 0;
    while i < |t.entries|
      invariant 0 <= i <= |t.entries|
      invariant forall j :: 0 <= j < i ==> !CmdLineMatch(t.entries[j], pattern)
    {
      var e := t.entries[i];
      if e.Some? && e.value.cmdline.Some? {
        var fullCmd := ToLower(Join(e.value.cmdline.value, " "));
        if Contains(fullCmd, ToLower(pattern)) {
          return true;
        }
      }
      i := i + 1;
    }
    return false;
  }

  /** `check_env_var`: scans the process list, returning at the first match. */
  method CheckEnvVar(t: ProcTable, key: string, val: string) returns (found: bool)
    ensures found == EnvVarMatches(t, key, val)
  {
    if !t.listed {
      return false;
    }
    var i := 0;
    while i < |t.entries|
      invariant 0 <= i <= |t.entries|
      invariant forall j :: 0 <= j < i ==> !EnvVarMatch(t.entries[j], key, val)
    {
      var e := t.entries[i];
      if e.Some? && e.value.environ.Some? {
        var env := e.value.environ.value;
        if key in env && env[key] == val {
          return true;
        }
      }
      i := i + 1;
    }
    return false;
  }

  /** Whether `target` is running in snapshot `t`. */
  ghost predicate Running(target: MonitorTarget, t: ProcTable)
    decreases target
  {
    match target
    case Pid(pid) => AsI32(pid) in t.live
    case SteamAppId(appid) => EnvVarMatches(t, "SteamAppId", appid)
    case EnvVarEq(key, val) => EnvVarMatches(t, key, val)
    case CmdLineContains(pattern) => CmdLineMatches(t, pattern)
    case Any(targets) => AnyRunning(targets, t)
  }

  /** `targets.iter().any(check_target_running)`. */
  ghost predicate AnyRunning(targets: seq<MonitorTarget>, t: ProcTable)
    decreases targets
  {
    targets != [] && (Running(targets[0], t) || AnyRunning(targets[1..], t))
  }

  /** `check_target_running`. */
  method CheckTargetRunning(target: MonitorTarget, t: ProcTable) returns (running: bool)
    ensures running == Running(target, t)
    decreases target
  {
    match target
    case Pid(pid) =>
      running := AsI32(pid) in t.live;
    case SteamAppId(appid) =>
      running := CheckEnvVar(t, "SteamAppId", appid);
    case EnvVarEq(key, val) =>
      running := CheckEnvVar(t, key, val);
    case CmdLineContains(pattern) =>
      running := CheckCmdline(t, pattern);
    case Any(targets) =>
      var i := 0;
      while i < |targets|
        invariant 0 <= i <= |targets|
        invariant AnyRunning(targets, t) == AnyRunning(targets[i..], t)
      {
        var r := CheckTargetRunning(targets[i], t);
        if r {
          return true;
        }
        assert targets[i..][1..] == targets[i + 1..];
        i := i + 1;
      }
      return false;
  }

  /** `Any(ts)` runs exactly when one of `ts` runs. */
  lemma {:induction false} AnyRunningIff(targets: seq<MonitorTarget>, t: ProcTable)
    ensures AnyRunning(targets, t) <==> exists i :: 0 <= i < |targets| && Running(targets[i], t)
  {
    if targets != [] {
      AnyRunningIff(targets[1..], t);
      assert forall i :: 1 <= i < |targets| ==> targets[i] == targets[1..][i - 1];
      if !Running(targets[0], t) && !AnyRunning(targets[1..], t) {
        forall i | 0 <= i < |targets| ensures !Running(targets[i], t) {
          if i > 0 {
            assert targets[1..][i - 1] == targets[i];
          }
        }
      }
    }
  }

  lemma AnyEmptyNeverRuns(t: ProcTable)
    ensures !Running(Any([]), t)
  {
  }

  lemma SteamAppIdIsEnvVar(appid: string, t: ProcTable)
    ensures Running(SteamAppId(appid), t) == Running(EnvVarEq("SteamAppId", appid), t)
  {
  }

  /** A process table that cannot be listed hides every command line and
      environment target. */
  lemma UnlistedTableHidesProcesses(t: ProcTable, pattern: string, key: string, val: string)
    requires !t.listed
    ensures !Running(CmdLineContains(pattern), t) && !Running(EnvVarEq(key, val), t)
  {
  }

  /** A process whose argv, joined and lowercased, contains the pattern makes
      the command-line target run, whatever the case of the pattern. */
  lemma CmdLineWitness(t: ProcTable, i: nat, pattern: string)
    requires t.listed && i < |t.entries| && CmdLineMatch(t.entries[i], pattern)
    ensures Running(CmdLineContains(pattern), t)
  {
  }

  // ---------------------------------------------------------------------
  // The polling loop.

  datatype MonitorState = MonitorState(foundOnce: bool, lastSeen: int)

  /** The state before the first poll: nothing seen, `last_seen_time` at start. */
  function Initial(start: int): (s: MonitorState)
    ensures !s.foundOnce && s.lastSeen == start
  {
    MonitorState(false, start)
  }

  /** One poll's reading: the clock and whether the target was running. */
  datatype Observation = Observation(now: int, running: bool)

  datatype Decision = Continue | TimedOut | Exited

  /** The `break` conditions of one loop iteration. */
  function Decide(s: MonitorState, start: int, o: Observation): Decision
  {
    if o.running then Continue
    else if !s.foundOnce then
      if o.now - start > STEAM_LAUNCH_TIMEOUT_MS then TimedOut else Continue
    else if o.now - s.lastSeen > GAME_EXIT_GRACE_PERIOD_MS then Exited
    else Continue
  }

  /** The assignments of one loop iteration. */
  function Update(s: MonitorState, o: Observation): MonitorState
  {
    if o.running then MonitorState(true, o.now) else s
  }

  /** How a run over finitely many polls ends: stopped at poll `at`, or still polling. */
  datatype Outcome = Stopped(at: nat, reason: Decision) | Polling(state: MonitorState)

  function Delay(o: Outcome, k: nat): Outcome
  {
    if o.Stopped? then Stopped(o.at + k, o.reason) else o
  }

  /** The loop as a function of its polls. */
  function Run(start: int, s: MonitorState, obs: seq<Observation>): (r: Outcome)
    ensures r.Stopped? ==> r.at < |obs| && r.reason != Continue
    decreases |obs|
  {
    if obs == [] then Polling(s)
    else
      var d := Decide(s, start, obs[0]);
      if d != Continue then Stopped(0, d)
      else Delay(Run(start, Update(s, obs[0]), obs[1..]), 1)
  }

  /** The state after the first `k` polls, had none of them stopped the loop. */
  function StateAt(start: int, obs: seq<Observation>, k: nat): MonitorState
    requires k <= |obs|
  {
    if k == 0 then Initial(start) else Update(StateAt(start, obs, k - 1), obs[k - 1])
  }

  ghost function Observe(target: MonitorTarget, ticks: seq<(int, ProcTable)>): (obs: seq<Observation>)
    ensures |obs| == |ticks|
  {
    seq(|ticks|, i requires 0 <= i < |ticks| => Observation(ticks[i].0, Running(target, ticks[i].1)))
  }

  /** `monitor_app_process` over the polls `ticks` (clock, /proc snapshot). The
      sleep between polls is the spacing of the clock readings. */
  method MonitorAppProcess(target: MonitorTarget, start: int, ticks: seq<(int, ProcTable)>) returns (outcome: Outcome)
    ensures outcome == Run(start, Initial(start), Observe(target, ticks))
  {
    ghost var obs := Observe(target, ticks);
    var gameFoundOnce := false;
    var lastSeenTime := start;
    var i := 0;
    while i < |ticks|
      invariant 0 <= i <= |ticks|
      invariant Run(start, Initial(start), obs) == Delay(Run(start, MonitorState(gameFoundOnce, lastSeenTime), obs[i..]), i)
    {
      var (now, table) := ticks[i];
      var isRunning := CheckTargetRunning(target, table);
      assert obs[i..][0] == Observation(now, isRunning);
      assert obs[i..][1..] == obs[i + 1..];
      if isRunning {
        gameFoundOnce := true;
        lastSeenTime := now;
      } else {
        if !gameFoundOnce {
          if now - start > STEAM_LAUNCH_TIMEOUT_MS {
            return Stopped(i, TimedOut);
          }
        } else {
          if now - lastSeenTime > GAME_EXIT_GRACE_PERIOD_MS {
            return Stopped(i, Exited);
          }
        }
      }
      i := i + 1;
    }
    assert obs[i..] == [];
    return Polling(MonitorState(gameFoundOnce, lastSeenTime));
  }

  // ---------------------------------------------------------------------
  // Properties of the loop.

  /** A poll that sees the target never stops the loop, and records its time. */
  lemma SightingContinues(s: MonitorState, start: int, now: int)
    ensures Decide(s, start, Observation(now, true)) == Continue
    ensures Update(s, Observation(now, true)) == MonitorState(true, now)
  {
  }

  /** The start timeout is the only way out before the first sighting, and it
      needs strictly more than 60 s; after a sighting it never applies. */
  lemma TimeoutOnlyBeforeSighting(s: MonitorState, start: int, o: Observation)
    ensures Decide(s, start, o) == TimedOut <==> !s.foundOnce && !o.running && o.now - start > STEAM_LAUNCH_TIMEOUT_MS
    ensures s.foundOnce ==> Decide(s, start, o) != TimedOut
  {
  }

  /** After a sighting the loop ends only when the target has been gone for
      strictly more than 2 s since it was last seen. */
  lemma ExitOnlyAfterGrace(s: MonitorState, start: int, o: Observation)
    ensures Decide(s, start, o) == Exited <==> s.foundOnce && !o.running && o.now - s.lastSeen > GAME_EXIT_GRACE_PERIOD_MS
    ensures !s.foundOnce ==> Decide(s, start, o) != Exited
  {
  }

  /** Once seen, always seen: `foundOnce` never goes back to false. */
  lemma {:induction false} FoundOnceSticky(start: int, obs: seq<Observation>, j: nat, k: nat)
    requires j <= k <= |obs|
    requires StateAt(start, obs, j).foundOnce
    ensures StateAt(start, obs, k).foundOnce
    decreases k - j
  {
    if j < k {
      FoundOnceSticky(start, obs, j, k - 1);
    }
  }

  /** A sighting at poll `j` sets the state to (found, that poll's time). */
  lemma SightingRecorded(start: int, obs: seq<Observation>, j: nat)
    requires j < |obs| && obs[j].running
    ensures StateAt(start, obs, j + 1) == MonitorState(true, obs[j].now)
  {
  }

  /** Before any sighting the state is still the initial one. */
  lemma {:induction false} UnseenStaysInitial(start: int, obs: seq<Observation>, k: nat)
    requires k <= |obs|
    requires forall j :: 0 <= j < k ==> !obs[j].running
    ensures StateAt(start, obs, k) == Initial(start)
  {
    if k > 0 {
      UnseenStaysInitial(start, obs, k - 1);
    }
  }

  /** The loop leaves only through the two `break`s: it stops at poll `k`
      exactly when poll `k` is the first whose decision is not `Continue`. */
  lemma {:induction false} RunStopsAtFirstBreak(start: int, obs: seq<Observation>, k: nat)
    requires k < |obs|
    requires forall j :: 0 <= j < k ==> Decide(StateAt(start, obs, j), start, obs[j]) == Continue
    ensures Run(start, Initial(start), obs) ==
      if Decide(StateAt(start, obs, k), start, obs[k]) != Continue
      then Stopped(k, Decide(StateAt(start, obs, k), start, obs[k]))
      else Delay(Run(start, StateAt(start, obs, k + 1), obs[k + 1..]), k + 1)
  {
    RunSuffix(start, obs, k);
    assert obs[k..][0] == obs[k];
    assert obs[k..][1..] == obs[k + 1..];
  }

  lemma {:induction false} RunSuffix(start: int, obs: seq<Observation>, k: nat)
    requires k <= |obs|
    requires forall j :: 0 <= j < k ==> Decide(StateAt(start, obs, j), start, obs[j]) == Continue
    ensures Run(start, Initial(start), obs) == Delay(Run(start, StateAt(start, obs, k), obs[k..]), k)
  {
    if k > 0 {
      RunSuffix(start, obs, k - 1);
      var s := StateAt(start, obs, k - 1);
      assert obs[k - 1..][0] == obs[k - 1];
      assert obs[k - 1..][1..] == obs[k..];
      assert Run(start, s, obs[k - 1..]) == Delay(Run(start, Update(s, obs[k - 1]), obs[k..]), 1);
    }
  }

  /** Every poll before the one where a run stopped chose to continue. */
  lemma {:induction false} ContinuesBeforeStop(start: int, obs: seq<Observation>, j: nat)
    requires Run(start, Initial(start), obs).Stopped?
    requires j <= Run(start, Initial(start), obs).at
    ensures forall i :: 0 <= i < j ==> Decide(StateAt(start, obs, i), start, obs[i]) == Continue
  {
    if j > 0 {
      ContinuesBeforeStop(start, obs, j - 1);
      RunStopsAtFirstBreak(start, obs, j - 1);
    }
  }

  /** Conversely, a run that stopped did so at the first poll whose decision
      was a `break`, and for that poll's reason. */
  lemma StoppedAtFirstBreak(start: int, obs: seq<Observation>)
    requires Run(start, Initial(start), obs).Stopped?
    ensures var r := Run(start, Initial(start), obs);
      (forall i :: 0 <= i < r.at ==> Decide(StateAt(start, obs, i), start, obs[i]) == Continue) &&
      Decide(StateAt(start, obs, r.at), start, obs[r.at]) == r.reason
  {
    var r := Run(start, Initial(start), obs);
    ContinuesBeforeStop(start, obs, r.at);
    RunStopsAtFirstBreak(start, obs, r.at);
  }

  /** Regular one-second polls from the start that never see the target stop
      the loop at poll 61, 61 s after the start: 60 s is not yet "more than 60 s". */
  lemma {:induction false} NeverSeenTimesOutAtPoll61(start: int, obs: seq<Observation>)
    requires |obs| > 61
    requires forall j :: 0 <= j < |obs| ==> obs[j] == Observation(start + POLL_INTERVAL_MS * j, false)
    ensures Run(start, Initial(start), obs) == Stopped(61, TimedOut)
  {
    forall j | 0 <= j < 61
      ensures Decide(StateAt(start, obs, j), start, obs[j]) == Continue
    {
      UnseenStaysInitial(start, obs, j);
    }
    UnseenStaysInitial(start, obs, 61);
    RunStopsAtFirstBreak(start, obs, 61);
  }

  /** Regular one-second polls after a sighting at time `t` that no longer
      see the target end the loop at the third poll: 2 s is not yet "more than 2 s". */
  lemma GoneExitsAtThirdPoll(start: int, t: int, obs: seq<Observation>)
    requires |obs| >= 3
    requires forall j :: 0 <= j < |obs| ==> obs[j] == Observation(t + POLL_INTERVAL_MS * (j + 1), false)
    ensures Run(start, MonitorState(true, t), obs) == Stopped(2, Exited)
  {
    var s := MonitorState(true, t);
    var o1 := obs[1..];
    var o2 := o1[1..];
    assert o1[0] == obs[1] && o2[0] == obs[2];
    assert Run(start, s, o2) == Stopped(0, Exited);
    assert Run(start, s, o1) == Delay(Run(start, s, o2), 1);
    assert Run(start, s, obs) == Delay(Run(start, s, o1), 1);
  }

  /** A sighting inside the grace window cancels the exit: after it the target
      has a fresh 2 s window. */
  lemma SightingRestartsGrace(start: int, s: MonitorState, now: int, later: Observation)
    requires s.foundOnce && !later.running && later.now - now <= GAME_EXIT_GRACE_PERIOD_MS
    ensures Decide(Update(s, Observation(now, true)), start, later) == Continue
  {
  }
}
