// src/ui.rs: the launcher's state and how navigation input and a few update
// messages change it. Rendering, iced tasks and subscriptions, the f32
// column and scroll computations and the config loading arms are not
// modelled. What the launcher asks the outside world to do (spawn a game,
// run systemctl, scan for desktop apps, save the config, exit) is returned
// as an `Effect`; whether a spawn failed, and its error, is an input.
module Ui {
  import opened Options
  import opened Input
  import opened Model
  import opened Sorting
  import opened SystemUpdateState
  import opened DesktopApps
  import CategoryList

  /** `usize` arithmetic wraps modulo 2^64 (`wrapping_add`). */
  const USIZE_MODULUS: nat := 0x1_0000_0000_0000_0000
  const CANCELLED_BY_USER := "Update cancelled by user"
  /** `AppPickerState::new`'s column count. */
  const PICKER_COLS: nat := 6

  /** The picker's selection and column count; its scroll position is not modelled. */
  datatype AppPickerState = AppPickerState(selectedIndex: nat, cols: nat)

  datatype ModalState =
    | NoModal
    | ContextMenuModal(index: nat)
    | AppPickerModal(picker: AppPickerState)
    | SystemUpdateModal(update: UpdateState)
    | HelpModal

  /** What a step asks of the outside world. */
  datatype Effect =
    | NoEffect
    | ExitProcess
    | MonitorGame(exec: string, name: string, gameExecutable: Option<string>)
    | Systemctl(command: string)
    | ScanDesktopApps
    | SaveConfig(entries: seq<AppEntry>)

  // ---------------------------------------------------------------- grid movement

  /** `next_grid_index`. */
  function NextGridIndex(current: nat, action: Action, cols: nat, len: nat): (r: nat)
    ensures current < len ==> r < len
    ensures r != current ==>
      (action == Up && r + cols == current) || (action == Down && r == current + cols) ||
      (action == Left && r + 1 == current) || (action == Right && r == current + 1)
  {
    match action
    case Up => if current >= cols then current - cols else current
    case Down => if current + cols < len then current + cols else current
    case Left => if current > 0 then current - 1 else current
    case Right => if current + 1 < len then current + 1 else current
    case _ => current
  }

  /**
   * Each direction moves whenever the target cell exists: a row up when
   * there is one, a row down when that cell is in the list, one step
   * sideways within the list.
   */
  lemma GridMovesWhenPossible(current: nat, cols: nat, len: nat)
    ensures current >= cols ==> NextGridIndex(current, Up, cols, len) == current - cols
    ensures current < cols ==> NextGridIndex(current, Up, cols, len) == current
    ensures current + cols < len ==> NextGridIndex(current, Down, cols, len) == current + cols
    ensures current + cols >= len ==> NextGridIndex(current, Down, cols, len) == current
    ensures current > 0 ==> NextGridIndex(current, Left, cols, len) == current - 1
    ensures current + 1 < len ==> NextGridIndex(current, Right, cols, len) == current + 1
    ensures forall a :: a !in {Up, Down, Left, Right} ==> NextGridIndex(current, a, cols, len) == current
  {
  }

  /** Index 5 moves up a row of three to 2; index 1 in the first row stays. */
  lemma GridExamples()
    ensures NextGridIndex(5, Up, 3, 10) == 2
    ensures NextGridIndex(1, Up, 3, 10) == 1
  {
  }

  /** `clamp_selected_index` on an index and a list length. */
  function ClampIndex(index: nat, len: nat): (r: nat)
    ensures CategoryList.IndexValid(len, r)
    ensures index < len ==> r == index
    ensures index >= len > 0 ==> r == len - 1
  {
    if len == 0 then 0 else if index >= len then len - 1 else index
  }

  // ---------------------------------------------------------------- context menu

  /** Launch, Remove Entry, Quit, Close for apps; Launch, Quit, Close otherwise. */
  function ContextMenuMax(category: Category): nat
  {
    if category == Apps then 3 else 2
  }

  /** The menu index after Up (saturating at 0) or Down (stopping at `max`). */
  function MenuStep(index: nat, action: Action, max: nat): (r: nat)
    ensures index <= max ==> r <= max
    ensures action == Up ==> r == if index == 0 then 0 else index - 1
    ensures action == Down ==> r == if index < max then index + 1 else index
  {
    match action
    case Up => if index > 0 then index - 1 else 0
    case Down => if index < max then index + 1 else index
    case _ => index
  }

  // ---------------------------------------------------------------- items and config

  /** `sort_items`: by name, byte-wise. */
  function NameOrder(a: LauncherItem, b: LauncherItem): Ordering
  {
    StrCmp(a.name, b.name)
  }

  function SortByName(items: seq<LauncherItem>): (r: seq<LauncherItem>)
    ensures |r| == |items|
  {
    SortBy(items, NameOrder)
  }

  /** The sorted list is a permutation of the items, in name order. */
  lemma SortByNameOrders(items: seq<LauncherItem>)
    ensures multiset(SortByName(items)) == multiset(items)
    ensures forall i :: 0 < i < |SortByName(items)| ==> NameOrder(SortByName(items)[i - 1], SortByName(items)[i]) != Greater
  {
    SortByPermutes(items, NameOrder);
    assert Antisymmetric(NameOrder) by {
      forall a, b ensures NameOrder(a, b) == NameOrder(b, a).Reverse() {
        StrCmpAntisymmetric(a.name, b.name);
      }
    }
    SortBySorted(items, NameOrder);
  }

  /**
   * The config entry a launch item is saved as (`app_entries_from_items`).
   * The entry literal has no launch key, so none is saved.
   */
  function EntryOf(item: LauncherItem): (r: Option<AppEntry>)
    ensures r.Some? <==> item.action.Launch?
    ensures r.Some? ==> r.value.launchKey == None
  {
    match item.action
    case Launch(exec) => Some(AppEntry(item.id, item.name, exec, item.icon, item.gameExecutable, None))
    case _ => None
  }

  /** `app_entries_from_items`: the launch items as config entries, in order. */
  function EntriesOf(items: seq<LauncherItem>): (r: seq<AppEntry>)
    ensures |r| <= |items|
  {
    if items == [] then []
    else
      var rest := EntriesOf(items[1..]);
      match EntryOf(items[0])
      case Some(e) => [e] + rest
      case None => rest
  }

  /**
   * Saving an item built from an entry gives the entry back, unless its icon
   * was a URL or it carried a launch key, which saving drops.
   */
  lemma SavedEntryRoundTrip(e: AppEntry)
    requires !(e.icon.Some? && IsUrl(e.icon.value))
    requires e.launchKey == None
    ensures EntryOf(FromAppEntry(e)) == Some(e)
  {
  }

  /**
   * Loading then saving a config of entries without URL icons or launch keys
   * gives the same config.
   */
  lemma {:induction false} SavedConfigRoundTrip(entries: seq<AppEntry>)
    requires forall i :: 0 <= i < |entries| ==> !(entries[i].icon.Some? && IsUrl(entries[i].icon.value))
    requires forall i :: 0 <= i < |entries| ==> entries[i].launchKey == None
    ensures EntriesOf(seq(|entries|, i requires 0 <= i < |entries| => FromAppEntry(entries[i]))) == entries
  {
    var items := seq(|entries|, i requires 0 <= i < |entries| => FromAppEntry(entries[i]));
    if entries != [] {
      SavedEntryRoundTrip(entries[0]);
      var tail := seq(|entries| - 1, i requires 0 <= i < |entries| - 1 => FromAppEntry(entries[1..][i]));
      assert items[1..] == tail;
      SavedConfigRoundTrip(entries[1..]);
      assert entries == [entries[0]] + entries[1..];
    }
  }

  /** The commands of the launch items (`existing_execs`). */
  function LaunchExecs(items: seq<LauncherItem>): set<string>
  {
    set i | 0 <= i < |items| && items[i].action.Launch? :: items[i].action.exec
  }

  /** The found apps whose command is not already a launch item's, in order. */
  function NotYetAdded(found: seq<DesktopApp>, execs: set<string>): (r: seq<DesktopApp>)
    ensures |r| <= |found|
  {
    if found == [] then []
    else
      var rest := NotYetAdded(found[1..], execs);
      if found[0].exec in execs then rest else [found[0]] + rest
  }

  /** An app stays exactly when it was found and its command is new. */
  lemma {:induction false} NotYetAddedMembers(found: seq<DesktopApp>, execs: set<string>, app: DesktopApp)
    ensures app in NotYetAdded(found, execs) <==> app in found && app.exec !in execs
  {
    if found != [] {
      NotYetAddedMembers(found[1..], execs, app);
      assert app in found <==> app == found[0] || app in found[1..];
    }
  }

  // ---------------------------------------------------------------- system update modal

  /** How a progress message changes the update dialog: once finished, not at all. */
  function ApplyProgress(st: UpdateState, p: SystemUpdateProgress): (r: UpdateState)
    ensures st.status.IsFinished() ==> r == st
    ensures st.outputLog <= r.outputLog && |r.outputLog| <= |st.outputLog| + 1
    ensures p.StatusChange? && st.status.IsRunning() ==> r.status == p.status
    ensures !p.StatusChange? ==> r.status == st.status
  {
    if st.status.IsFinished() then st
    else
      match p
      case StatusChange(s) => st.(status := s)
      case LogLine(line) => st.(outputLog := st.outputLog + [line])
      case SpinnerTick => st.(spinnerTick := (st.spinnerTick + 1) % USIZE_MODULUS)
  }

  /** A run of progress messages applied in order. */
  function ApplyAll(st: UpdateState, ps: seq<SystemUpdateProgress>): UpdateState
    decreases |ps|
  {
    if ps == [] then st else ApplyAll(ApplyProgress(st, ps[0]), ps[1..])
  }

  /** A finished update ignores every later progress message, however many arrive. */
  lemma {:induction false} FinishedIsFinal(st: UpdateState, ps: seq<SystemUpdateProgress>)
    requires st.status.IsFinished()
    ensures ApplyAll(st, ps) == st
    decreases |ps|
  {
    if ps != [] {
      FinishedIsFinal(ApplyProgress(st, ps[0]), ps[1..]);
    }
  }

  /** `CancelSystemUpdate`: fail the update unless it is installing. */
  function Cancelled(status: UpdateStatus): (r: UpdateStatus)
    ensures status.Installing? ==> r == status
    ensures !status.Installing? ==> r == Failed(CANCELLED_BY_USER) && r.IsFinished()
  {
    if status.Installing? then status else Failed(CANCELLED_BY_USER)
  }

  /** After a cancel, later progress can no longer overwrite the result. */
  lemma CancelThenProgress(st: UpdateState, ps: seq<SystemUpdateProgress>)
    requires !st.status.Installing?
    ensures ApplyAll(st.(status := Cancelled(st.status)), ps).status == Failed(CANCELLED_BY_USER)
  {
    FinishedIsFinal(st.(status := Cancelled(st.status)), ps);
  }

  // ---------------------------------------------------------------- the launcher

  class Launcher {
    var apps: seq<LauncherItem>
    var games: seq<LauncherItem>
    var systemItems: seq<LauncherItem>
    var selectedIndex: nat
    var category: Category
    var cols: nat
    var statusMessage: Option<string>
    var modal: ModalState
    var availableApps: seq<DesktopApp>
    var gameRunning: bool

    /** `active_items`: the list of the current category. */
    function ActiveItems(): seq<LauncherItem>
      reads this
    {
      match category
      case Apps => apps
      case Games => games
      case System => systemItems
    }

    /** At least one column, and the selection is valid for the shown list. */
    ghost predicate Valid()
      reads this
    {
      cols >= 1 && CategoryList.IndexValid(|ActiveItems()|, selectedIndex)
    }

    /**
     * `Launcher::new`, with the fresh ids of the four system items and the
     * column count `update_columns` computes for the initial window.
     */
    constructor (shutdown: Uuid, suspend: Uuid, update: Uuid, exit: Uuid, initialCols: nat)
      requires initialCols >= 1
      ensures apps == [] && games == [] && selectedIndex == 0 && category == Apps
      ensures systemItems == [ShutdownItem(shutdown), SuspendItem(suspend), SystemUpdateItem(update), ExitItem(exit)]
      ensures cols == initialCols && statusMessage == None && modal == NoModal
      ensures availableApps == [] && !gameRunning
      ensures Valid()
    {
      apps, games := [], [];
      systemItems := [ShutdownItem(shutdown), SuspendItem(suspend), SystemUpdateItem(update), ExitItem(exit)];
      selectedIndex, category, cols := 0, Apps, initialCols;
      statusMessage, modal := None, NoModal;
      availableApps, gameRunning := [], false;
    }

    /** `clamp_selected_index`. */
    method ClampSelectedIndex()
      modifies this`selectedIndex
      ensures selectedIndex == ClampIndex(old(selectedIndex), |ActiveItems()|)
      ensures CategoryList.IndexValid(|ActiveItems()|, selectedIndex)
    {
      var len := |ActiveItems()|;
      if len == 0 {
        selectedIndex := 0;
      } else if selectedIndex >= len {
        selectedIndex := len - 1;
      }
    }

    /** `cycle_category`; the f32 column update is not modelled. */
    method CycleCategory()
      modifies this`category, this`selectedIndex, this`statusMessage
      ensures category == old(category).Next() && selectedIndex == 0 && statusMessage == None
    {
      category := category.Next();
      selectedIndex := 0;
      statusMessage := None;
    }

    /** `cycle_category_back`. */
    method CycleCategoryBack()
      modifies this`category, this`selectedIndex, this`statusMessage
      ensures category == old(category).Prev() && selectedIndex == 0 && statusMessage == None
    {
      category := category.Prev();
      selectedIndex := 0;
      statusMessage := None;
    }

    /**
     * What `activate_selected` does, from the state before to the state
     * after: `modal0` is the dialog shown when it starts, `spawnError` the
     * error of the process it starts, if starting it failed. With nothing
     * selected nothing happens.
     */
    twostate predicate Activated(spawnError: Option<string>, modal0: ModalState, effect: Effect)
      reads this
    {
      var items := old(ActiveItems());
      if old(selectedIndex) >= |items| then
        effect == NoEffect && statusMessage == old(statusMessage) && modal == modal0 && gameRunning == old(gameRunning)
      else
        var item := items[old(selectedIndex)];
        match item.action
        case Launch(exec) =>
          effect == (if spawnError.None? then MonitorGame(exec, item.name, item.gameExecutable) else NoEffect) &&
          gameRunning == (spawnError.None? || old(gameRunning)) && statusMessage == spawnError && modal == modal0
        case SystemUpdate =>
          effect == NoEffect && modal == SystemUpdateModal(NewState()) && statusMessage == None && gameRunning == old(gameRunning)
        case Shutdown =>
          effect == Systemctl("poweroff") && modal == modal0 && gameRunning == old(gameRunning) &&
          statusMessage == (if spawnError.Some? then Some("Failed to shutdown: " + spawnError.value) else None)
        case Suspend =>
          effect == Systemctl("suspend") && modal == modal0 && gameRunning == old(gameRunning) &&
          statusMessage == (if spawnError.Some? then Some("Failed to suspend: " + spawnError.value) else None)
        case Exit =>
          effect == ExitProcess && modal == modal0 && gameRunning == old(gameRunning) && statusMessage == None
    }

    /** `activate_selected`: run the selected item's action. */
    method ActivateSelected(spawnError: Option<string>) returns (effect: Effect)
      modifies this`statusMessage, this`modal, this`gameRunning
      ensures Activated(spawnError, old(modal), effect)
    {
      var items := ActiveItems();
      if selectedIndex >= |items| {
        return NoEffect;
      }
      var item := items[selectedIndex];
      statusMessage := None;
      match item.action
      case Launch(exec) =>
        if spawnError.None? {
          gameRunning := true;
          effect := MonitorGame(exec, item.name, item.gameExecutable);
        } else {
          statusMessage := spawnError;
          effect := NoEffect;
        }
      case SystemUpdate =>
        modal := SystemUpdateModal(NewState());
        effect := NoEffect;
      case Shutdown =>
        if spawnError.Some? {
          statusMessage := Some("Failed to shutdown: " + spawnError.value);
        }
        effect := Systemctl("poweroff");
      case Suspend =>
        if spawnError.Some? {
          statusMessage := Some("Failed to suspend: " + spawnError.value);
        }
        effect := Systemctl("suspend");
      case Exit =>
        effect := ExitProcess;
    }

    /**
     * The Remove Entry arm of the context menu as intended: drop the selected
     * app, clamp the selection, save the rest, and leave the menu closed.
     */
    method RemoveSelectedEntry() returns (effect: Effect)
      requires Valid()
      modifies this`modal, this`apps, this`selectedIndex
      ensures Valid() && modal == NoModal
      ensures old(selectedIndex) < |old(apps)| ==>
        apps == old(apps)[..old(selectedIndex)] + old(apps)[old(selectedIndex) + 1..] &&
        selectedIndex == ClampIndex(old(selectedIndex), |ActiveItems()|) && effect == SaveConfig(EntriesOf(apps))
      ensures old(selectedIndex) >= |old(apps)| ==> apps == old(apps) && selectedIndex == old(selectedIndex) && effect == NoEffect
    {
      modal := NoModal;
      effect := NoEffect;
      if selectedIndex < |apps| {
        apps := apps[..selectedIndex] + apps[selectedIndex + 1..];
        ClampSelectedIndex();
        effect := SaveConfig(EntriesOf(apps));
      }
    }

    /**
     * What `handle_context_menu_navigation` does, from the state before to
     * the state after. Outside the menu nothing changes. Up and Down move
     * within the menu, Back and ContextMenu close it, and every other
     * action except Select keeps the menu where it is. Select launches the
     * selected item at index 0, removes it at Remove Entry (index 1 in
     * Apps) and then, following the code, re-opens the menu at 1; it exits
     * at Quit and closes the menu at Close.
     */
    twostate predicate ContextMenuNavigated(action: Action, spawnError: Option<string>, effect: Effect)
      reads this
    {
      if !old(modal).ContextMenuModal? then
        effect == NoEffect && modal == old(modal) && apps == old(apps) && selectedIndex == old(selectedIndex) &&
        statusMessage == old(statusMessage) && gameRunning == old(gameRunning)
      else
        var index := old(modal).index;
        var quitIndex := if old(category) == Apps then 2 else 1;
        if action == Select && index == 0 then
          Activated(spawnError, NoModal, effect) && apps == old(apps) && selectedIndex == old(selectedIndex)
        else
          statusMessage == old(statusMessage) && gameRunning == old(gameRunning) &&
          if action == Select && old(category) == Apps && index == 1 then
            modal == ContextMenuModal(1) &&
            (old(selectedIndex) < |old(apps)| ==>
              apps == old(apps)[..old(selectedIndex)] + old(apps)[old(selectedIndex) + 1..] &&
              selectedIndex == ClampIndex(old(selectedIndex), |ActiveItems()|) && effect == SaveConfig(EntriesOf(apps))) &&
            (old(selectedIndex) >= |old(apps)| ==>
              apps == old(apps) && selectedIndex == old(selectedIndex) && effect == NoEffect)
          else
            apps == old(apps) && selectedIndex == old(selectedIndex) &&
            if action == Select && index == quitIndex then
              effect == ExitProcess && modal == old(modal)
            else
              effect == NoEffect &&
              modal == (if action == Select || action == Back || action == ContextMenu then NoModal
                        else if action == Up || action == Down then ContextMenuModal(MenuStep(index, action, ContextMenuMax(old(category))))
                        else old(modal))
    }

    /**
     * `handle_context_menu_navigation`. Following the code, removing an
     * entry does not return early, so the menu is set again to index 1
     * afterwards instead of staying closed.
     */
    method HandleContextMenuNavigation(action: Action, spawnError: Option<string>) returns (effect: Effect)
      requires Valid()
      modifies this`modal, this`apps, this`selectedIndex, this`statusMessage, this`gameRunning
      ensures Valid()
      ensures ContextMenuNavigated(action, spawnError, effect)
    {
      if !modal.ContextMenuModal? {
        return NoEffect;
      }
      var maxIndex := ContextMenuMax(category);
      var index := modal.index;
      effect := NoEffect;
      match action {
      case Up =>
        index := MenuStep(index, action, maxIndex);
      case Down =>
        index := MenuStep(index, action, maxIndex);
      case Select =>
        if index == 0 {
          // Launch.
          modal := NoModal;
          effect := ActivateSelected(spawnError);
          return;
        } else if category == Apps && index == 1 {
          effect := RemoveSelectedEntry();
        } else {
          var quitIndex := if category == Apps then 2 else 1;
          if index == quitIndex {
            return ExitProcess;
          } else {
            modal := NoModal;
            return NoEffect;
          }
        }
      case Back =>
        modal := NoModal;
        return NoEffect;
      case ContextMenu =>
        modal := NoModal;
        return NoEffect;
      case _ =>
      }
      modal := ContextMenuModal(index);
    }

    /** `handle_help_modal_navigation`: Back or ShowHelp close the help. */
    method HandleHelpModalNavigation(action: Action)
      modifies this`modal
      ensures action == Back || action == ShowHelp ==> modal == NoModal
      ensures !(action == Back || action == ShowHelp) ==> modal == old(modal)
    {
      if action == Back || action == ShowHelp {
        modal := NoModal;
      }
    }

    /** The `SystemUpdateProgress` arm: ignored once the update has finished. */
    method SystemUpdateProgress(progress: SystemUpdateProgress)
      modifies this`modal
      ensures old(modal).SystemUpdateModal? ==> modal == SystemUpdateModal(ApplyProgress(old(modal).update, progress))
      ensures !old(modal).SystemUpdateModal? ==> modal == old(modal)
      ensures old(modal).SystemUpdateModal? && old(modal).update.status.IsFinished() ==> modal == old(modal)
    {
      if modal.SystemUpdateModal? {
        modal := SystemUpdateModal(ApplyProgress(modal.update, progress));
      }
    }

    /** The `CancelSystemUpdate` arm. */
    method CancelSystemUpdate()
      modifies this`modal
      ensures old(modal).SystemUpdateModal? ==>
        modal == SystemUpdateModal(old(modal).update.(status := Cancelled(old(modal).update.status)))
      ensures !old(modal).SystemUpdateModal? ==> modal == old(modal)
    {
      if modal.SystemUpdateModal? {
        var st := modal.update;
        if !st.status.Installing? {
          modal := SystemUpdateModal(st.(status := Failed(CANCELLED_BY_USER)));
        }
      }
    }

    /**
     * What `handle_system_update_navigation` does, from the state before to
     * the state after. Once an update that needs a restart has completed,
     * Select asks for a reboot and Back or ShowHelp close the dialog; after
     * any other finish Back, Select or ShowHelp close it; while the update
     * runs, Back cancels it unless it is installing. Nothing else changes.
     */
    twostate predicate SystemUpdateNavigated(action: Action, spawnError: Option<string>, effect: Effect)
      reads this
    {
      if !old(modal).SystemUpdateModal? then
        modal == old(modal) && effect == NoEffect && statusMessage == old(statusMessage)
      else
        var status := old(modal).update.status;
        if status == Completed(true) && action == Select then
          effect == Systemctl("reboot") && modal == old(modal) &&
          statusMessage == (if spawnError.Some? then Some("Failed to reboot: " + spawnError.value) else old(statusMessage))
        else
          effect == NoEffect && statusMessage == old(statusMessage) &&
          modal == (if status == Completed(true) then (if action == Back || action == ShowHelp then NoModal else old(modal))
                    else if status.IsFinished() then (if action == Back || action == Select || action == ShowHelp then NoModal else old(modal))
                    else if action == Back && !status.Installing? then SystemUpdateModal(old(modal).update.(status := Failed(CANCELLED_BY_USER)))
                    else old(modal))
    }

    /** `handle_system_update_navigation`, with the messages it sends handled in place. */
    method HandleSystemUpdateNavigation(action: Action, spawnError: Option<string>) returns (effect: Effect)
      modifies this`modal, this`statusMessage
      ensures SystemUpdateNavigated(action, spawnError, effect)
    {
      effect := NoEffect;
      if !modal.SystemUpdateModal? {
        return;
      }
      var status := modal.update.status;
      if status.Completed? && status.restartRequired {
        if action == Select {
          // RequestReboot.
          if spawnError.Some? {
            statusMessage := Some("Failed to reboot: " + spawnError.value);
          }
          effect := Systemctl("reboot");
        } else if action == Back || action == ShowHelp {
          modal := NoModal;
        }
      } else if status.IsFinished() {
        if action == Back || action == Select || action == ShowHelp {
          modal := NoModal;
        }
      } else if !status.Installing? && action == Back {
        CancelSystemUpdate();
      }
    }

    /** The `AvailableAppsLoaded` arm: offer only apps not already added, from the first. */
    method AvailableAppsLoaded(found: seq<DesktopApp>)
      modifies this`availableApps, this`modal
      ensures availableApps == NotYetAdded(found, LaunchExecs(apps))
      ensures forall app :: app in availableApps <==> app in found && app.exec !in LaunchExecs(apps)
      ensures old(modal).AppPickerModal? ==> modal == AppPickerModal(old(modal).picker.(selectedIndex := 0))
      ensures !old(modal).AppPickerModal? ==> modal == old(modal)
    {
      availableApps := NotYetAdded(found, LaunchExecs(apps));
      forall app ensures app in availableApps <==> app in found && app.exec !in LaunchExecs(apps) {
        NotYetAddedMembers(found, LaunchExecs(apps), app);
      }
      if modal.AppPickerModal? {
        modal := AppPickerModal(modal.picker.(selectedIndex := 0));
      }
    }

    /**
     * What the `AddSelectedApp` arm does, from the state before to the state
     * after: the app under the picker's cursor joins the sorted list under
     * the fresh id `newId`, leaves the offer, the list is saved and the
     * picker closes. With no app under the cursor nothing changes.
     */
    twostate predicate AddedSelectedApp(newId: Uuid, effect: Effect)
      reads this
    {
      if old(modal).AppPickerModal? && old(modal).picker.selectedIndex < |old(availableApps)| then
        var i := old(modal).picker.selectedIndex;
        var app := old(availableApps)[i];
        var item := FromAppEntry(NewAppEntry(newId, app.name, app.exec, app.iconPath));
        apps == SortByName(old(apps) + [item]) &&
        availableApps == old(availableApps)[..i] + old(availableApps)[i + 1..] &&
        modal == NoModal && selectedIndex == ClampIndex(old(selectedIndex), |ActiveItems()|) &&
        effect == SaveConfig(EntriesOf(apps))
      else
        apps == old(apps) && availableApps == old(availableApps) && modal == old(modal) &&
        selectedIndex == old(selectedIndex) && effect == NoEffect
    }

    /** The `AddSelectedApp` arm; `newId` is the fresh id `AppEntry::new` draws. */
    method AddSelectedApp(newId: Uuid) returns (effect: Effect)
      requires Valid()
      modifies this`apps, this`selectedIndex, this`availableApps, this`modal
      ensures Valid()
      ensures AddedSelectedApp(newId, effect)
    {
      if !modal.AppPickerModal? {
        return NoEffect;
      }
      var i := modal.picker.selectedIndex;
      if i >= |availableApps| {
        return NoEffect;
      }
      var app := availableApps[i];
      var item := FromAppEntry(NewAppEntry(newId, app.name, app.exec, app.iconPath));
      apps := SortByName(apps + [item]);
      ClampSelectedIndex();
      effect := SaveConfig(EntriesOf(apps));
      availableApps := availableApps[..i] + availableApps[i + 1..];
      modal := NoModal;
    }

    /**
     * What `handle_app_picker_navigation` does, from the state before to the
     * state after. With no app on offer only Back and AddApp do anything:
     * they close the picker. Otherwise Select adds the app under the cursor,
     * Back and AddApp close the picker, and every other action moves the
     * cursor over the grid of offered apps.
     */
    twostate predicate AppPickerNavigated(action: Action, newId: Uuid, effect: Effect)
      reads this
    {
      if |old(availableApps)| > 0 && old(modal).AppPickerModal? && action == Select then
        AddedSelectedApp(newId, effect)
      else
        apps == old(apps) && availableApps == old(availableApps) && selectedIndex == old(selectedIndex) && effect == NoEffect &&
        modal == (if |old(availableApps)| == 0 || !old(modal).AppPickerModal? then
                    (if |old(availableApps)| == 0 && (action == Back || action == AddApp) then NoModal else old(modal))
                  else if action == Back || action == AddApp then NoModal
                  else
                    var p := old(modal).picker;
                    AppPickerModal(p.(selectedIndex := NextGridIndex(p.selectedIndex, action, p.cols, |old(availableApps)|))))
    }

    /** `handle_app_picker_navigation`, with the messages it sends handled in place. */
    method HandleAppPickerNavigation(action: Action, newId: Uuid) returns (effect: Effect)
      requires Valid()
      modifies this`apps, this`selectedIndex, this`availableApps, this`modal
      ensures Valid()
      ensures AppPickerNavigated(action, newId, effect)
    {
      effect := NoEffect;
      if |availableApps| == 0 {
        if action == Back || action == AddApp {
          modal := NoModal;
        }
        return;
      }
      if !modal.AppPickerModal? {
        return;
      }
      var p := modal.picker;
      if action == Select {
        effect := AddSelectedApp(newId);
        return;
      } else if action == Back || action == AddApp {
        modal := NoModal;
        return;
      }
      modal := AppPickerModal(p.(selectedIndex := NextGridIndex(p.selectedIndex, action, p.cols, |availableApps|)));
    }

    /**
     * What `handle_modal_navigation` does with a dialog open, from the state
     * before to the state after: the open dialog takes the action, and the
     * category never changes. Help closes on Back or ShowHelp.
     */
    twostate predicate ModalNavigated(action: Action, spawnError: Option<string>, newId: Uuid, effect: Effect)
      reads this
    {
      category == old(category) &&
      match old(modal)
      case NoModal => false
      case HelpModal =>
        apps == old(apps) && selectedIndex == old(selectedIndex) && statusMessage == old(statusMessage) &&
        availableApps == old(availableApps) && gameRunning == old(gameRunning) && effect == NoEffect &&
        modal == (if action == Back || action == ShowHelp then NoModal else old(modal))
      case ContextMenuModal(_) =>
        ContextMenuNavigated(action, spawnError, effect) && availableApps == old(availableApps)
      case AppPickerModal(_) =>
        AppPickerNavigated(action, newId, effect) && statusMessage == old(statusMessage) && gameRunning == old(gameRunning)
      case SystemUpdateModal(_) =>
        SystemUpdateNavigated(action, spawnError, effect) && apps == old(apps) && selectedIndex == old(selectedIndex) &&
        availableApps == old(availableApps) && gameRunning == old(gameRunning)
    }

    /**
     * `handle_modal_navigation`: hand the action to the open dialog. With no
     * dialog open there is no result and nothing changes.
     */
    method HandleModalNavigation(action: Action, spawnError: Option<string>, newId: Uuid) returns (r: Option<Effect>)
      requires Valid()
      modifies this`apps, this`selectedIndex, this`statusMessage, this`modal, this`availableApps, this`gameRunning
      ensures Valid()
      ensures r.None? <==> old(modal) == NoModal
      ensures r.None? ==>
        apps == old(apps) && selectedIndex == old(selectedIndex) && statusMessage == old(statusMessage) &&
        modal == old(modal) && availableApps == old(availableApps) && gameRunning == old(gameRunning)
      ensures r.Some? ==> ModalNavigated(action, spawnError, newId, r.value)
    {
      match modal {
        case HelpModal =>
          HandleHelpModalNavigation(action);
          return Some(NoEffect);
        case ContextMenuModal(_) =>
          var effect := HandleContextMenuNavigation(action, spawnError);
          return Some(effect);
        case AppPickerModal(_) =>
          var effect := HandleAppPickerNavigation(action, newId);
          return Some(effect);
        case SystemUpdateModal(_) =>
          var effect := HandleSystemUpdateNavigation(action, spawnError);
          return Some(effect);
        case NoModal =>
          return None;
      }
    }

    /** `handle_navigation`: Quit exits, an open dialog takes the action, and otherwise the main grid does. */
    method HandleNavigation(action: Action, spawnError: Option<string>, newId: Uuid) returns (effect: Effect)
      requires Valid()
      modifies this`apps, this`selectedIndex, this`category, this`statusMessage, this`modal, this`availableApps, this`gameRunning
      ensures Valid()
      ensures action == Quit ==>
        effect == ExitProcess && modal == old(modal) && category == old(category) && apps == old(apps) &&
        selectedIndex == old(selectedIndex) && statusMessage == old(statusMessage) &&
        availableApps == old(availableApps) && gameRunning == old(gameRunning)
      ensures action != Quit && !old(modal).ContextMenuModal? && !old(modal).AppPickerModal? ==> apps == old(apps)
      ensures action != Quit && old(modal) != NoModal ==> ModalNavigated(action, spawnError, newId, effect)
      ensures action != Quit && old(modal) == NoModal ==> GridNavigated(action, spawnError, effect)
    {
      if action == Quit {
        return ExitProcess;
      }
      if modal != NoModal {
        // The open dialog handles the action, so `handle_modal_navigation` gives a result.
        var handled := HandleModalNavigation(action, spawnError, newId);
        return handled.value;
      }
      effect := HandleGridNavigation(action, spawnError);
    }

    /**
     * What the main-grid half of `handle_navigation` does, from the state
     * before to the state after: ShowHelp opens the help, AddApp in Apps
     * opens the picker and asks for the desktop apps, ContextMenu opens the
     * menu on a non-empty list, NextCategory and PrevCategory switch the
     * list, Back clears the status line, Select activates the selected item
     * and the directions move over a non-empty grid.
     */
    twostate predicate GridNavigated(action: Action, spawnError: Option<string>, effect: Effect)
      reads this
    {
      var len := |old(ActiveItems())|;
      var opensPicker := action == AddApp && old(category) == Apps;
      if action == Select then
        Activated(spawnError, NoModal, effect) && selectedIndex == old(selectedIndex) && category == old(category) &&
        availableApps == old(availableApps)
      else
        gameRunning == old(gameRunning) &&
        availableApps == (if opensPicker then [] else old(availableApps)) &&
        effect == (if opensPicker then ScanDesktopApps else NoEffect) &&
        category == (if action == NextCategory then old(category).Next()
                     else if action == PrevCategory then old(category).Prev()
                     else old(category)) &&
        statusMessage == (if action == NextCategory || action == PrevCategory || action == Back then None
                          else old(statusMessage)) &&
        selectedIndex == (if action == NextCategory || action == PrevCategory then 0
                          else if action in {Up, Down, Left, Right} && len > 0 then NextGridIndex(old(selectedIndex), action, cols, len)
                          else old(selectedIndex)) &&
        modal == (if action == ShowHelp then HelpModal
                  else if opensPicker then AppPickerModal(AppPickerState(0, PICKER_COLS))
                  else if action == ContextMenu && len > 0 then ContextMenuModal(0)
                  else NoModal)
    }

    /** The main-grid half of `handle_navigation`, when no modal is open. */
    method HandleGridNavigation(action: Action, spawnError: Option<string>) returns (effect: Effect)
      requires Valid() && modal == NoModal && action != Quit
      modifies this`selectedIndex, this`category, this`statusMessage, this`modal, this`availableApps, this`gameRunning
      ensures Valid()
      ensures GridNavigated(action, spawnError, effect)
    {
      effect := NoEffect;
      match action {
        case ShowHelp =>
          modal := HelpModal;
          return;
        case AddApp =>
          if category == Apps {
            // OpenAppPicker.
            modal := AppPickerModal(AppPickerState(0, PICKER_COLS));
            availableApps := [];
            effect := ScanDesktopApps;
          }
          return;
        case ContextMenu =>
          if |ActiveItems()| > 0 {
            modal := ContextMenuModal(0);
          }
          return;
        case NextCategory =>
          CycleCategory();
          return;
        case PrevCategory =>
          CycleCategoryBack();
          return;
        case Back =>
          statusMessage := None;
          return;
        case _ =>
      }
      var len := |ActiveItems()|;
      if len == 0 {
        return;
      }
      if action == Select {
        effect := ActivateSelected(spawnError);
      } else {
        selectedIndex := NextGridIndex(selectedIndex, action, cols, len);
      }
    }
  }

  /** Three NextCategory steps from any category come back to it. */
  lemma CategoryCycle(c: Category)
    ensures c.Next().Next().Next() == c
    ensures Apps.Next() == Games && Games.Next() == System && System.Next() == Apps
  {
    NextPeriodThree(c);
  }
}
