// src/app.rs: the earlier version of the launcher state, which `main.rs` no
// longer declares. Its grid movement, context menu, clamping, category
// cycling and app-picker arms are modelled; they share the pure rules of
// src/ui.rs, which this version spells the same way.
module App {
  import opened Options
  import opened Input
  import opened Model
  import opened DesktopApps
  import CategoryList
  import Ui

  datatype ModalState =
    | NoModal
    | ContextMenuModal(index: nat)
    | AppPickerModal(picker: Ui.AppPickerState)
    | HelpModal

  /** What a step asks of the outside world. */
  datatype Effect =
    | NoEffect
    | ExitProcess
    | ActivateSelected
    | SaveConfig(entries: seq<AppEntry>)

  /**
   * The config entry this version writes for a launch item. Its literal is
   * the one src/ui.rs uses, so it is `Ui.EntryOf`: the item's fields and no
   * launch key.
   */
  function SavedEntry(item: LauncherItem): (r: Option<AppEntry>)
    ensures r.Some? <==> item.action.Launch?
    ensures r.Some? ==>
      r.value == AppEntry(item.id, item.name, item.action.exec, item.icon, item.gameExecutable, None)
  {
    Ui.EntryOf(item)
  }

  /** The `filter_map` the add arm saves: the launch items' entries, in order. */
  function SavedEntries(items: seq<LauncherItem>): (r: seq<AppEntry>)
    ensures |r| <= |items|
  {
    if items == [] then []
    else
      var rest := SavedEntries(items[1..]);
      match SavedEntry(items[0])
      case Some(e) => [e] + rest
      case None => rest
  }

  /**
   * When every item is a launch item, as the removal arm's `unreachable!()`
   * assumes, the saved list has one entry per item, field for field.
   */
  lemma {:induction false} SavedEntriesOfLaunchItems(items: seq<LauncherItem>)
    requires forall i :: 0 <= i < |items| ==> items[i].action.Launch?
    ensures |SavedEntries(items)| == |items|
    ensures forall i :: 0 <= i < |items| ==>
      var e := SavedEntries(items)[i];
      e.id == items[i].id && e.name == items[i].name && items[i].action == Launch(e.exec) &&
      e.icon == items[i].icon && e.gameExecutable == items[i].gameExecutable && e.launchKey == None
  {
    if items != [] {
      SavedEntriesOfLaunchItems(items[1..]);
      var r := SavedEntries(items);
      assert r == [SavedEntry(items[0]).value] + SavedEntries(items[1..]);
      forall i | 0 <= i < |items|
        ensures r[i].id == items[i].id && r[i].name == items[i].name && items[i].action == Launch(r[i].exec) &&
          r[i].icon == items[i].icon && r[i].gameExecutable == items[i].gameExecutable && r[i].launchKey == None
      {
        if i > 0 {
          assert r[i] == SavedEntries(items[1..])[i - 1];
          assert items[i] == items[1..][i - 1];
        }
      }
    }
  }

  /**
   * `navigate_grid`: moves `index` by the grid rule and reports whether it
   * moved. With at least one column, "moved" means the index changed; with
   * none, Up and Down report a move that leaves the index where it was.
   */
  method NavigateGrid(index: nat, action: Action, cols: nat, len: nat) returns (newIndex: nat, moved: bool)
    ensures newIndex == Ui.NextGridIndex(index, action, cols, len)
    ensures cols >= 1 ==> (moved <==> newIndex != index)
    ensures index < len ==> newIndex < len
  {
    newIndex, moved := index, false;
    match action {
      case Up =>
        if index >= cols {
          newIndex, moved := index - cols, true;
        }
      case Down =>
        if index + cols < len {
          newIndex, moved := index + cols, true;
        }
      case Left =>
        if index > 0 {
          newIndex, moved := index - 1, true;
        }
      case Right =>
        if index + 1 < len {
          newIndex, moved := index + 1, true;
        }
      case _ =>
    }
  }

  /** Adding a launch item and re-sorting keeps the list all launch items. */
  lemma SortKeepsLaunchItems(items: seq<LauncherItem>, item: LauncherItem)
    requires forall i :: 0 <= i < |items| ==> items[i].action.Launch?
    requires item.action.Launch?
    ensures multiset(Ui.SortByName(items + [item])) == multiset(items) + multiset{item}
    ensures forall k :: 0 <= k < |Ui.SortByName(items + [item])| ==> Ui.SortByName(items + [item])[k].action.Launch?
  {
    var grown := items + [item];
    var sorted := Ui.SortByName(grown);
    Ui.SortByNameOrders(grown);
    forall k | 0 <= k < |sorted| ensures sorted[k].action.Launch? {
      assert sorted[k] in multiset(grown);
      assert sorted[k] in grown;
    }
  }

  class Launcher {
    var apps: seq<LauncherItem>
    var games: seq<LauncherItem>
    var systemItems: seq<LauncherItem>
    var selectedIndex: nat
    var category: Category
    var cols: nat
    var statusMessage: Option<string>
    var modal: ModalState
    var availableApps: seq<DesktopApp>

    /** `active_items`. */
    function ActiveItems(): seq<LauncherItem>
      reads this
    {
      match category
      case Apps => apps
      case Games => games
      case System => systemItems
    }

    /**
     * At least one column, a valid selection, and only launch items in the
     * apps list (the removal arm's `unreachable!()` relies on it).
     */
    ghost predicate Valid()
      reads this
    {
      cols >= 1 && CategoryList.IndexValid(|ActiveItems()|, selectedIndex) &&
      forall i :: 0 <= i < |apps| ==> apps[i].action.Launch?
    }

    /** `clamp_selected_index`. */
    method ClampSelectedIndex()
      modifies this`selectedIndex
      ensures selectedIndex == Ui.ClampIndex(old(selectedIndex), |ActiveItems()|)
      ensures CategoryList.IndexValid(|ActiveItems()|, selectedIndex)
    {
      var len := |ActiveItems()|;
      if len == 0 {
        selectedIndex := 0;
      } else if selectedIndex >= len {
        selectedIndex := len - 1;
      }
    }

    /** `cycle_category`; the f32 column update is not modelled. */
    method CycleCategory()
      modifies this`category, this`selectedIndex, this`statusMessage
      ensures category == old(category).Next() && selectedIndex == 0 && statusMessage == None
    {
      category := category.Next();
      selectedIndex := 0;
      statusMessage := None;
    }

    /** `cycle_category_back`. */
    method CycleCategoryBack()
      modifies this`category, this`selectedIndex, this`statusMessage
      ensures category == old(category).Prev() && selectedIndex == 0 && statusMessage == None
    {
      category := category.Prev();
      selectedIndex := 0;
      statusMessage := None;
    }

    /**
     * The Remove Entry arm of the context menu as intended: drop the selected
     * app, clamp the selection, save the rest, and leave the menu closed.
     */
    method RemoveSelectedEntry() returns (effect: Effect)
      requires Valid()
      modifies this`modal, this`apps, this`selectedIndex
      ensures Valid() && modal == NoModal
      ensures old(selectedIndex) < |old(apps)| ==>
        apps == old(apps)[..old(selectedIndex)] + old(apps)[old(selectedIndex) + 1..] &&
        selectedIndex == Ui.ClampIndex(old(selectedIndex), |ActiveItems()|) && effect == SaveConfig(SavedEntries(apps))
      ensures old(selectedIndex) >= |old(apps)| ==> apps == old(apps) && selectedIndex == old(selectedIndex) && effect == NoEffect
    {
      modal := NoModal;
      effect := NoEffect;
      if selectedIndex < |apps| {
        apps := apps[..selectedIndex] + apps[selectedIndex + 1..];
        ClampSelectedIndex();
        effect := SaveConfig(SavedEntries(apps));
      }
    }

    /**
     * What `handle_context_menu_navigation` does, from the state before to
     * the state after. Outside the menu nothing changes. Up and Down move
     * within the menu, Back and ContextMenu close it, and every other
     * action except Select keeps the menu where it is. Select hands the
     * selected item to `activate_selected` at index 0, removes it at Remove
     * Entry (index 1 in Apps) and then, as in src/ui.rs, re-opens the menu
     * at 1; it exits at Quit and closes the menu at Close.
     */
    twostate predicate ContextMenuNavigated(action: Action, effect: Effect)
      reads this
    {
      if !old(modal).ContextMenuModal? then
        effect == NoEffect && modal == old(modal) && apps == old(apps) && selectedIndex == old(selectedIndex)
      else
        var index := old(modal).index;
        var quitIndex := if old(category) == Apps then 2 else 1;
        if action == Select && old(category) == Apps && index == 1 then
          modal == ContextMenuModal(1) &&
          (old(selectedIndex) < |old(apps)| ==>
            apps == old(apps)[..old(selectedIndex)] + old(apps)[old(selectedIndex) + 1..] &&
            selectedIndex == Ui.ClampIndex(old(selectedIndex), |ActiveItems()|) && effect == SaveConfig(SavedEntries(apps))) &&
          (old(selectedIndex) >= |old(apps)| ==>
            apps == old(apps) && selectedIndex == old(selectedIndex) && effect == NoEffect)
        else
          apps == old(apps) && selectedIndex == old(selectedIndex) &&
          if action == Select && index == 0 then
            effect == ActivateSelected && modal == NoModal
          else if action == Select && index == quitIndex then
            effect == ExitProcess && modal == old(modal)
          else
            effect == NoEffect &&
            modal == (if action == Select || action == Back || action == ContextMenu then NoModal
                      else if action == Up || action == Down then ContextMenuModal(Ui.MenuStep(index, action, Ui.ContextMenuMax(old(category))))
                      else old(modal))
    }

    /**
     * `handle_context_menu_navigation`. The index stays within the menu;
     * launching is handed to `activate_selected`, which is not modelled here.
     * As in src/ui.rs, a removal falls through and re-opens the menu at 1.
     */
    method HandleContextMenuNavigation(action: Action) returns (effect: Effect)
      requires Valid()
      modifies this`modal, this`apps, this`selectedIndex
      ensures Valid()
      ensures old(modal).ContextMenuModal? && old(modal).index <= Ui.ContextMenuMax(category) && modal.ContextMenuModal? ==>
        modal.index <= Ui.ContextMenuMax(category)
      ensures ContextMenuNavigated(action, effect)
    {
      if !modal.ContextMenuModal? {
        return NoEffect;
      }
      var maxIndex := Ui.ContextMenuMax(category);
      var index := modal.index;
      effect := NoEffect;
      match action {
        case Up =>
          index := Ui.MenuStep(index, action, maxIndex);
        case Down =>
          index := Ui.MenuStep(index, action, maxIndex);
        case Select =>
          if index == 0 {
            // Launch.
            modal := NoModal;
            return ActivateSelected;
          } else if category == Apps && index == 1 {
            effect := RemoveSelectedEntry();
          } else {
            var quitIndex := if category == Apps then 2 else 1;
            if index == quitIndex {
              return ExitProcess;
            } else {
              modal := NoModal;
              return NoEffect;
            }
          }
        case Back =>
          modal := NoModal;
          return NoEffect;
        case ContextMenu =>
          modal := NoModal;
          return NoEffect;
        case _ =>
      }
      modal := ContextMenuModal(index);
    }

    /** The `AvailableAppsLoaded` arm. */
    method AvailableAppsLoaded(found: seq<DesktopApp>)
      modifies this`availableApps, this`modal
      ensures availableApps == Ui.NotYetAdded(found, Ui.LaunchExecs(apps))
      ensures old(modal).AppPickerModal? ==> modal == AppPickerModal(old(modal).picker.(selectedIndex := 0))
      ensures !old(modal).AppPickerModal? ==> modal == old(modal)
    {
      availableApps := Ui.NotYetAdded(found, Ui.LaunchExecs(apps));
      if modal.AppPickerModal? {
        modal := AppPickerModal(modal.picker.(selectedIndex := 0));
      }
    }

    /**
     * The `AddSelectedApp` arm: one new launch item, the apps re-sorted by
     * name, the picked app no longer offered, and the picker closed.
     */
    method AddSelectedApp(newId: Uuid) returns (effect: Effect)
      requires Valid()
      modifies this`apps, this`selectedIndex, this`availableApps, this`modal
      ensures Valid()
      ensures (old(modal).AppPickerModal? && old(modal).picker.selectedIndex < |old(availableApps)|) ==>
        var i := old(modal).picker.selectedIndex;
        var app := old(availableApps)[i];
        var item := FromAppEntry(NewAppEntry(newId, app.name, app.exec, app.iconPath));
        apps == Ui.SortByName(old(apps) + [item]) &&
        |apps| == |old(apps)| + 1 && multiset(apps) == multiset(old(apps)) + multiset{item} &&
        availableApps == old(availableApps)[..i] + old(availableApps)[i + 1..] &&
        modal == NoModal && selectedIndex == Ui.ClampIndex(old(selectedIndex), |ActiveItems()|) &&
        effect == SaveConfig(SavedEntries(apps))
      ensures !(old(modal).AppPickerModal? && old(modal).picker.selectedIndex < |old(availableApps)|) ==>
        apps == old(apps) && availableApps == old(availableApps) && modal == old(modal) &&
        selectedIndex == old(selectedIndex) && effect == NoEffect
    {
      if !modal.AppPickerModal? {
        return NoEffect;
      }
      var i := modal.picker.selectedIndex;
      if i >= |availableApps| {
        return NoEffect;
      }
      var app := availableApps[i];
      var item := FromAppEntry(NewAppEntry(newId, app.name, app.exec, app.iconPath));
      var grown := apps + [item];
      SortKeepsLaunchItems(apps, item);
      apps := Ui.SortByName(grown);
      ClampSelectedIndex();
      effect := SaveConfig(SavedEntries(apps));
      availableApps := availableApps[..i] + availableApps[i + 1..];
      modal := NoModal;
    }
  }
}
