// The launcher's data model: categories, launcher items and the app entries
// the scanners produce. A `Uuid` is an opaque number here; `Uuid::new_v4()`
// becomes an `id` parameter supplied by the caller.
module Model {
  import opened Options
  import opened Strings

  type Uuid = nat

  datatype Category = Apps | Games | System
  {
    /** `Category::next`. */
    function Next(): (r: Category)
      ensures r != this
    {
      match this
      case Apps => Games
      case Games => System
      case System => Apps
    }

    /** `Category::prev`. */
    function Prev(): (r: Category)
      ensures r != this
    {
      match this
      case Apps => System
      case Games => Apps
      case System => Games
    }
  }

  /** `prev` undoes `next` and vice versa. */
  lemma NextPrevInverse(c: Category)
    ensures c.Next().Prev() == c && c.Prev().Next() == c
  {
  }

  /** Three steps of `next` come back to the start, and no fewer do. */
  lemma NextPeriodThree(c: Category)
    ensures c.Next().Next().Next() == c
    ensures c.Next().Next() != c
  {
  }

  datatype LauncherAction =
    | Launch(exec: string)
    | SystemUpdate
    | Shutdown
    | Suspend
    | Exit

  /** A tile of the launcher. `lastStarted` is the launch timestamp the
      category list sorts by. */
  datatype LauncherItem = LauncherItem(
    id: Uuid,
    name: string,
    icon: Option<string>,
    systemIcon: Option<string>,
    action: LauncherAction,
    sourceImageUrl: Option<string>,
    gameExecutable: Option<string>,
    launchKey: Option<string>,
    lastStarted: Option<int>)

  /** An application or game found by a scanner. */
  datatype AppEntry = AppEntry(
    id: Uuid,
    name: string,
    exec: string,
    icon: Option<string>,
    gameExecutable: Option<string>,
    launchKey: Option<string>)

  predicate IsUrl(s: string)
  {
    StartsWith(s, "http://") || StartsWith(s, "https://")
  }

  /** `LauncherItem::from_app_entry`. */
  function FromAppEntry(e: AppEntry): (r: LauncherItem)
    ensures r.id == e.id && r.name == e.name && r.gameExecutable == e.gameExecutable
    ensures r.action == Launch(e.exec)
    ensures !(r.icon.Some? && r.sourceImageUrl.Some?)
    ensures e.icon.Some? && IsUrl(e.icon.value) ==> r.icon == None && r.sourceImageUrl == e.icon
    ensures e.icon.Some? && !IsUrl(e.icon.value) ==> r.icon == e.icon && r.sourceImageUrl == None
    ensures e.icon.None? ==> r.icon == None && r.sourceImageUrl == None
  {
    var (icon, url) :=
      match e.icon
      case None => (None, None)
      case Some(s) => if IsUrl(s) then (None, Some(s)) else (e.icon, None);
    LauncherItem(e.id, e.name, icon, None, Launch(e.exec), url, e.gameExecutable, e.launchKey, None)
  }

  function SystemItem(id: Uuid, name: string, icon: Option<string>, action: LauncherAction): LauncherItem
  {
    LauncherItem(id, name, icon, None, action, None, None, None, None)
  }

  /** `LauncherItem::system_update`. */
  function SystemUpdateItem(id: Uuid): (r: LauncherItem)
    ensures !r.action.Launch? && r.action == SystemUpdate && r.name == "Update System"
    ensures r.icon == None && r.gameExecutable == None
  {
    SystemItem(id, "Update System", None, SystemUpdate)
  }

  /** `LauncherItem::shutdown`. */
  function ShutdownItem(id: Uuid): (r: LauncherItem)
    ensures !r.action.Launch? && r.action == Shutdown && r.name == "Shutdown"
    ensures r.icon == Some("assets/shutdown.svg") && r.gameExecutable == None
  {
    SystemItem(id, "Shutdown", Some("assets/shutdown.svg"), Shutdown)
  }

  /** `LauncherItem::suspend`. */
  function SuspendItem(id: Uuid): (r: LauncherItem)
    ensures !r.action.Launch? && r.action == Suspend && r.name == "Suspend"
    ensures r.icon == Some("assets/suspend.svg") && r.gameExecutable == None
  {
    SystemItem(id, "Suspend", Some("assets/suspend.svg"), Suspend)
  }

  /** `LauncherItem::exit`. */
  function ExitItem(id: Uuid): (r: LauncherItem)
    ensures !r.action.Launch? && r.action == Exit && r.name == "Exit Launcher"
    ensures r.icon == Some("assets/exit.svg") && r.gameExecutable == None
  {
    SystemItem(id, "Exit Launcher", Some("assets/exit.svg"), Exit)
  }

  /** `AppEntry::new`. */
  function NewAppEntry(id: Uuid, name: string, exec: string, icon: Option<string>): (r: AppEntry)
    ensures r.id == id && r.name == name && r.exec == exec && r.icon == icon
    ensures r.gameExecutable == None && r.launchKey == None
  {
    AppEntry(id, name, exec, icon, None, None)
  }

  /** `AppEntry::with_executable`: only `gameExecutable` changes. */
  function WithExecutable(e: AppEntry, executable: Option<string>): (r: AppEntry)
    ensures r.gameExecutable == executable
    ensures r == e.(gameExecutable := executable)
  {
    e.(gameExecutable := executable)
  }

  /** `AppEntry::with_launch_key`: only `launchKey` changes. */
  function WithLaunchKey(e: AppEntry, key: string): (r: AppEntry)
    ensures r.launchKey == Some(key)
    ensures r == e.(launchKey := Some(key))
  {
    e.(launchKey := Some(key))
  }

  /** The two builder steps touch different fields, so their order does not matter. */
  lemma BuildersCommute(e: AppEntry, executable: Option<string>, key: string)
    ensures WithLaunchKey(WithExecutable(e, executable), key) == WithExecutable(WithLaunchKey(e, key), executable)
    ensures FromAppEntry(WithExecutable(e, executable)).gameExecutable == executable
  {
  }

  /** The tests of model.rs: a new entry keeps its fields, and becomes a `Launch` item. */
  lemma AppEntryExamples(id: Uuid)
    ensures NewAppEntry(id, "Terminal", "gnome-terminal", Some("utilities-terminal")).icon.Some?
    ensures FromAppEntry(NewAppEntry(id, "Game", "steam -applaunch 570", None)).name == "Game"
    ensures FromAppEntry(NewAppEntry(id, "Game", "steam -applaunch 570", None)).action.Launch?
  {
  }
}
