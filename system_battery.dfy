// src/system_battery.rs: the laptop battery read from sysfs. The entries of
// `/sys/class/power_supply` and the contents of each battery's `capacity`
// and `status` files are inputs.
module SystemBattery {
  import opened Options
  import opened Strings
  import opened Sorting
  import Paths
  import PathOrder

  /** gilrs's `PowerInfo`. */
  datatype PowerInfo = Unknown | Wired | Discharging(level: nat) | Charging(level: nat) | Charged

  const CHARGING := "Charging"
  const DISCHARGING := "Discharging"
  const FULL := "Full"
  const NOT_CHARGING := "Not charging"

  /** Above this capacity a battery that is not charging counts as charged. */
  const CHARGED_ABOVE: nat := 90

  /** The `capacity` and `status` files of one battery directory; `None` when a file cannot be read. */
  datatype BatteryFiles = BatteryFiles(capacity: Option<string>, status: Option<string>)

  /** `capacity.trim().parse::<u8>().unwrap_or(0)`. */
  function Capacity(content: string): (c: nat)
    ensures c < 256
    ensures ParseUnsigned(Trim(content), 8).None? ==> c == 0
  {
    ParseUnsigned(Trim(content), 8).UnwrapOr(0)
  }

  /** The status compared: the trimmed file, or the empty string when it cannot be read. */
  function StatusText(status: Option<string>): string
  {
    match status
    case None => ""
    case Some(s) => Trim(s)
  }

  /** The `match status.as_str()` of `read_battery_info`. */
  function PowerOf(status: string, capacity: nat): (r: PowerInfo)
    ensures r.Charged? <==> status == FULL || (status == NOT_CHARGING && capacity > CHARGED_ABOVE)
    ensures r.Charging? <==> status == CHARGING || (status == NOT_CHARGING && capacity <= CHARGED_ABOVE)
    ensures r.Discharging? <==> status != CHARGING && status != FULL && status != NOT_CHARGING
    ensures !r.Unknown? && !r.Wired?
    ensures r.Charging? || r.Discharging? ==> r.level == capacity
  {
    if status == CHARGING then Charging(capacity)
    else if status == DISCHARGING then Discharging(capacity)
    else if status == FULL then Charged
    else if status == NOT_CHARGING && capacity > CHARGED_ABOVE then Charged
    else if status == NOT_CHARGING then Charging(capacity)
    else Discharging(capacity)
  }

  /**
   * `read_battery_info`: nothing without a readable `capacity` file, and
   * otherwise always a power state.
   */
  function ReadBatteryInfo(files: BatteryFiles): (r: Option<PowerInfo>)
    ensures r.None? <==> files.capacity.None?
    ensures r.Some? && (r.value.Charging? || r.value.Discharging?) ==> r.value.level < 256
  {
    match files.capacity
    case None => None
    case Some(c) => Some(PowerOf(StatusText(files.status), Capacity(c)))
  }

  /** A missing `status` file reads as discharging. */
  lemma MissingStatusDischarges(capacity: string)
    ensures ReadBatteryInfo(BatteryFiles(Some(capacity), None)) == Some(Discharging(Capacity(capacity)))
  {
  }

  /** A capacity that is not a `u8` reads as 0. */
  lemma BadCapacityIsZero(capacity: string, status: Option<string>)
    requires ParseUnsigned(Trim(capacity), 8).None?
    ensures ReadBatteryInfo(BatteryFiles(Some(capacity), status)) == Some(PowerOf(StatusText(status), 0))
  {
  }

  /** The files as sysfs writes them, a value and a newline, read as that value and that status. */
  lemma ReadSysfsLines(level: nat, status: string, w: char, v: char)
    requires level < 256
    requires status != [] && Trim(status) == status && IsWhitespace(w) && IsWhitespace(v)
    ensures ReadBatteryInfo(BatteryFiles(Some(NatToString(level) + [v]), Some(status + [w]))) ==
      Some(PowerOf(status, level))
  {
    var d := NatToString(level);
    assert forall i :: 0 <= i < |[v]| ==> IsWhitespace([v][i]);
    TrimDigitsBeforeWhitespace(d, [v]);
    ParseNatToString(level, 8);
    TrimDropsLastWhitespace(status, w);
  }

  /** "Not charging" is charged above 90% and charging at or below it. */
  lemma NotChargingThreshold(capacity: nat)
    ensures PowerOf(NOT_CHARGING, capacity) ==
      if capacity > CHARGED_ABOVE then Charged else Charging(capacity)
  {
  }

  // ---------------------------------------------------------------- selection

  const POWER_SUPPLY_DIR: Paths.Path := "/sys/class/power_supply"
  const BATTERY_PREFIX := "BAT"

  predicate IsBatteryName(name: string)
  {
    StartsWith(name, BATTERY_PREFIX)
  }

  /**
   * The `filter_map` over the directory: entries that can be read and
   * whose name is Unicode (`None` otherwise) and starts with `BAT`, as paths.
   */
  function BatteryPaths(entries: seq<Option<string>>): (r: seq<Paths.Path>)
    ensures |r| <= |entries|
  {
    if entries == [] then []
    else
      var rest := BatteryPaths(entries[1..]);
      match entries[0]
      case Some(name) => if IsBatteryName(name) then [Paths.Join(POWER_SUPPLY_DIR, name)] + rest else rest
      case None => rest
  }

  /** Every readable `BAT*` entry is a candidate. */
  lemma {:induction false} BatteryPathsComplete(entries: seq<Option<string>>, name: string)
    requires Some(name) in entries && IsBatteryName(name)
    ensures Paths.Join(POWER_SUPPLY_DIR, name) in BatteryPaths(entries)
    decreases |entries|
  {
    if entries[0] != Some(name) {
      assert Some(name) in entries[1..] by {
        var i :| 0 <= i < |entries| && entries[i] == Some(name);
        assert entries[1..][i - 1] == entries[i];
      }
      BatteryPathsComplete(entries[1..], name);
    }
  }

  /** Only `BAT*` paths are considered. */
  lemma {:induction false} BatteryPathsAreBatteries(entries: seq<Option<string>>, p: Paths.Path)
    requires p in BatteryPaths(entries)
    ensures exists n :: Some(n) in entries && IsBatteryName(n) && p == Paths.Join(POWER_SUPPLY_DIR, n)
    decreases |entries|
  {
    var rest := BatteryPaths(entries[1..]);
    if p in rest {
      BatteryPathsAreBatteries(entries[1..], p);
      var n :| Some(n) in entries[1..] && IsBatteryName(n) && p == Paths.Join(POWER_SUPPLY_DIR, n);
      assert Some(n) in entries;
    } else {
      assert entries[0].Some? && p == Paths.Join(POWER_SUPPLY_DIR, entries[0].value);
    }
  }

  /** The files of a battery path; a path without files reads as unreadable. */
  function FilesAt(files: map<Paths.Path, BatteryFiles>, p: Paths.Path): BatteryFiles
  {
    if p in files then files[p] else BatteryFiles(None, None)
  }

  /** `find_map(read_battery_info)`: the first path that gives a reading. */
  function FirstReading(paths: seq<Paths.Path>, files: map<Paths.Path, BatteryFiles>): (r: Option<PowerInfo>)
    ensures r.None? <==> forall k :: 0 <= k < |paths| ==> FilesAt(files, paths[k]).capacity.None?
  {
    if paths == [] then None
    else
      match ReadBatteryInfo(FilesAt(files, paths[0]))
      case Some(info) => Some(info)
      case None =>
        var r := FirstReading(paths[1..], files);
        assert forall k :: 1 <= k < |paths| ==> paths[k] == paths[1..][k - 1];
        r
  }

  /** The first path with a `capacity` file is the one read. */
  lemma {:induction false} FirstReadingAt(paths: seq<Paths.Path>, files: map<Paths.Path, BatteryFiles>, k: nat)
    requires k < |paths| && FilesAt(files, paths[k]).capacity.Some?
    requires forall j :: 0 <= j < k ==> FilesAt(files, paths[j]).capacity.None?
    ensures FirstReading(paths, files) == ReadBatteryInfo(FilesAt(files, paths[k]))
    decreases k
  {
    if k > 0 {
      assert FilesAt(files, paths[0]).capacity.None?;
      FirstReadingAt(paths[1..], files, k - 1);
    }
  }

  /** The battery paths in `sort()` order. */
  function SortedBatteryPaths(entries: seq<Option<string>>): (r: seq<Paths.Path>)
  {
    SortBy(BatteryPaths(entries), PathOrder.PathCmp)
  }

  /** `read_system_battery`: `None` when the directory cannot be read or no battery gives a reading. */
  function ReadSystemBattery(entries: Option<seq<Option<string>>>, files: map<Paths.Path, BatteryFiles>): (r: Option<PowerInfo>)
    ensures entries.None? ==> r.None?
  {
    match entries
    case None => None
    case Some(es) => FirstReading(SortedBatteryPaths(es), files)
  }

  /** The candidates are exactly the battery paths, ordered by `Path::cmp`. */
  lemma SortedBatteryPathsSpec(entries: seq<Option<string>>)
    ensures multiset(SortedBatteryPaths(entries)) == multiset(BatteryPaths(entries))
    ensures forall i, j :: 0 <= i < j < |SortedBatteryPaths(entries)| ==>
      PathOrder.PathCmp(SortedBatteryPaths(entries)[i], SortedBatteryPaths(entries)[j]) != Greater
  {
    PathOrder.PathCmpIsTotalOrder();
    SortByPermutes(BatteryPaths(entries), PathOrder.PathCmp);
    SortBySorted(BatteryPaths(entries), PathOrder.PathCmp);
    SortedIsPairwise(SortedBatteryPaths(entries), PathOrder.PathCmp);
  }

  /**
   * The reading is that of the first battery, in path order, that has a
   * `capacity` file; the batteries before it are skipped.
   */
  lemma FirstBatteryWins(entries: seq<Option<string>>, files: map<Paths.Path, BatteryFiles>, k: nat)
    requires k < |SortedBatteryPaths(entries)|
    requires FilesAt(files, SortedBatteryPaths(entries)[k]).capacity.Some?
    requires forall j :: 0 <= j < k ==> FilesAt(files, SortedBatteryPaths(entries)[j]).capacity.None?
    ensures ReadSystemBattery(Some(entries), files) == ReadBatteryInfo(FilesAt(files, SortedBatteryPaths(entries)[k]))
    ensures ReadSystemBattery(Some(entries), files).Some?
  {
    FirstReadingAt(SortedBatteryPaths(entries), files, k);
  }

  /** A directory without any `BAT*` entry gives nothing. */
  lemma NoBatteryNoReading(entries: seq<Option<string>>, files: map<Paths.Path, BatteryFiles>)
    requires forall i :: 0 <= i < |entries| && entries[i].Some? ==> !IsBatteryName(entries[i].value)
    ensures ReadSystemBattery(Some(entries), files) == None
  {
    NoBatteryPaths(entries);
  }

  lemma {:induction false} NoBatteryPaths(entries: seq<Option<string>>)
    requires forall i :: 0 <= i < |entries| && entries[i].Some? ==> !IsBatteryName(entries[i].value)
    ensures BatteryPaths(entries) == []
    decreases |entries|
  {
    if entries != [] {
      assert forall i :: 1 <= i < |entries| ==> entries[1..][i - 1] == entries[i];
      NoBatteryPaths(entries[1..]);
    }
  }
}
