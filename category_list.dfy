// src/category_list.rs: the items of one launcher category and the selected
// tile. The widget scroll id is a UI handle and is not modelled.
module CategoryList {
  import opened Options
  import opened Strings
  import opened Sorting
  import opened Model

  // ---------------------------------------------------------------- order

  /** `Ord::cmp` on timestamps. */
  function IntCmp(a: int, b: int): Ordering
  {
    if a < b then Less else if a > b then Greater else Equal
  }

  /**
   * The comparator of `sort_items`: launched items first, most recent
   * first; then the never-launched ones by lower-cased name.
   */
  function ItemOrder(a: LauncherItem, b: LauncherItem): Ordering
  {
    match (a.lastStarted, b.lastStarted)
    case (Some(x), Some(y)) => IntCmp(y, x)
    case (Some(_), None) => Less
    case (None, Some(_)) => Greater
    case (None, None) => StrCmp(ToLower(a.name), ToLower(b.name))
  }

  /** `a` may stand before `b` exactly when the documented order allows it. */
  lemma ItemOrderAllows(a: LauncherItem, b: LauncherItem)
    ensures ItemOrder(a, b) != Greater <==>
      ((b.lastStarted.Some? ==> a.lastStarted.Some? && a.lastStarted.value >= b.lastStarted.value) &&
       ((a.lastStarted.None? && b.lastStarted.None?) ==> StrCmp(ToLower(a.name), ToLower(b.name)) != Greater))
  {
  }

  lemma ItemOrderAntisymmetric(a: LauncherItem, b: LauncherItem)
    ensures ItemOrder(a, b) == ItemOrder(b, a).Reverse()
  {
    StrCmpAntisymmetric(ToLower(a.name), ToLower(b.name));
  }

  lemma ItemOrderTransitive(a: LauncherItem, b: LauncherItem, c: LauncherItem)
    requires ItemOrder(a, b) != Greater && ItemOrder(b, c) != Greater
    ensures ItemOrder(a, c) != Greater
  {
    if a.lastStarted.None? && b.lastStarted.None? && c.lastStarted.None? {
      StrCmpTransitive(ToLower(a.name), ToLower(b.name), ToLower(c.name));
    }
  }

  /** The comparator is a total preorder, so the sort is well defined. */
  lemma ItemOrderIsTotal()
    ensures Antisymmetric(ItemOrder) && Transitive(ItemOrder)
  {
    forall a, b ensures ItemOrder(a, b) == ItemOrder(b, a).Reverse() {
      ItemOrderAntisymmetric(a, b);
    }
    forall a, b, c | ItemOrder(a, b) != Greater && ItemOrder(b, c) != Greater
      ensures ItemOrder(a, c) != Greater
    {
      ItemOrderTransitive(a, b, c);
    }
  }

  /** `sort_items`: the stable `sort_by` with `ItemOrder`. */
  function SortItems(items: seq<LauncherItem>): seq<LauncherItem>
  {
    SortBy(items, ItemOrder)
  }

  /**
   * Sorting keeps the items and puts every launched item before every
   * never-launched one, launched items by descending timestamp and the rest
   * by case-insensitive name.
   */
  lemma SortItemsOrder(items: seq<LauncherItem>)
    ensures multiset(SortItems(items)) == multiset(items)
    ensures var r := SortItems(items);
      forall i, j :: 0 <= i < j < |r| ==>
        (r[j].lastStarted.Some? ==> r[i].lastStarted.Some? && r[i].lastStarted.value >= r[j].lastStarted.value) &&
        ((r[i].lastStarted.None? && r[j].lastStarted.None?) ==> StrCmp(ToLower(r[i].name), ToLower(r[j].name)) != Greater)
  {
    var r := SortItems(items);
    SortByPermutes(items, ItemOrder);
    ItemOrderIsTotal();
    SortBySorted(items, ItemOrder);
    SortedIsPairwise(r, ItemOrder);
    forall i, j | 0 <= i < j < |r|
      ensures (r[j].lastStarted.Some? ==> r[i].lastStarted.Some? && r[i].lastStarted.value >= r[j].lastStarted.value) &&
        ((r[i].lastStarted.None? && r[j].lastStarted.None?) ==> StrCmp(ToLower(r[i].name), ToLower(r[j].name)) != Greater)
    {
      ItemOrderAllows(r[i], r[j]);
    }
  }

  // ---------------------------------------------------------------- lookup

  /** `iter().find(|i| i.id == id)`, as a position. */
  function FirstWithId(items: seq<LauncherItem>, id: Uuid): (r: Option<nat>)
    ensures r.Some? ==> r.value < |items| && items[r.value].id == id
    ensures r.Some? ==> forall j :: 0 <= j < r.value ==> items[j].id != id
    ensures r.None? ==> forall j :: 0 <= j < |items| ==> items[j].id != id
  {
    if items == [] then None
    else if items[0].id == id then Some(0)
    else
      match FirstWithId(items[1..], id)
      case None => None
      case Some(k) => Some(k + 1)
  }

  /** What `update_item_by_id(id, f)` leaves: `f` applied to the first item with `id` only. */
  function UpdatedById(items: seq<LauncherItem>, id: Uuid, f: LauncherItem -> LauncherItem): (r: seq<LauncherItem>)
  {
    match FirstWithId(items, id)
    case None => items
    case Some(k) => items[k := f(items[k])]
  }

  /** Only the first item carrying `id` changes, and an unknown id changes nothing. */
  lemma UpdatedByIdChangesFirstOnly(items: seq<LauncherItem>, id: Uuid, f: LauncherItem -> LauncherItem)
    ensures |UpdatedById(items, id, f)| == |items|
    ensures forall j :: 0 <= j < |items| && items[j].id != id ==> UpdatedById(items, id, f)[j] == items[j]
    ensures forall j :: 0 <= j < |items| && items[j].id == id && (forall k :: 0 <= k < j ==> items[k].id != id) ==>
      UpdatedById(items, id, f)[j] == f(items[j])
    ensures forall j, k :: 0 <= k < j < |items| && items[k].id == id ==> UpdatedById(items, id, f)[j] == items[j]
    ensures (forall j :: 0 <= j < |items| ==> items[j].id != id) ==> UpdatedById(items, id, f) == items
  {
  }

  /** The selection is on an item, or at 0 when there is none. */
  predicate IndexValid(len: nat, index: nat)
  {
    if len == 0 then index == 0 else index < len
  }

  // ---------------------------------------------------------------- the list

  class CategoryList {
    var items: seq<LauncherItem>
    var selectedIndex: nat

    predicate Valid()
      reads this
    {
      IndexValid(|items|, selectedIndex)
    }

    /** `CategoryList::new`. */
    constructor (items: seq<LauncherItem>)
      ensures this.items == items && selectedIndex == 0
      ensures Valid()
    {
      this.items := items;
      selectedIndex := 0;
    }

    /** `set_items`: replace the items and clamp the selection. */
    method SetItems(newItems: seq<LauncherItem>)
      modifies this
      ensures items == newItems
      ensures old(selectedIndex) < |newItems| ==> selectedIndex == old(selectedIndex)
      ensures old(selectedIndex) >= |newItems| > 0 ==> selectedIndex == |newItems| - 1
      ensures Valid()
    {
      items := newItems;
      ClampIndex();
    }

    /** `clear`. */
    method Clear()
      modifies this
      ensures items == [] && selectedIndex == 0
      ensures Valid()
    {
      items := [];
      selectedIndex := 0;
    }

    /** `is_empty`. */
    function IsEmpty(): (r: bool)
      reads this
      ensures r <==> |items| == 0
    {
      items == []
    }

    /** `get_selected`: the selected item, if the index is on one. */
    function GetSelected(): (r: Option<LauncherItem>)
      reads this
      ensures r.Some? <==> selectedIndex < |items|
      ensures r.Some? ==> r.value == items[selectedIndex]
      ensures Valid() ==> (r.None? <==> items == [])
    {
      if selectedIndex < |items| then Some(items[selectedIndex]) else None
    }

    /** `move_left`: one step left unless at the start or empty. */
    method MoveLeft() returns (moved: bool)
      modifies this
      ensures items == old(items)
      ensures moved <==> old(items) != [] && old(selectedIndex) > 0
      ensures moved ==> selectedIndex == old(selectedIndex) - 1
      ensures !moved ==> selectedIndex == old(selectedIndex)
      ensures old(Valid()) ==> Valid()
    {
      if items != [] && selectedIndex > 0 {
        selectedIndex := selectedIndex - 1;
        return true;
      }
      return false;
    }

    /** `move_right`: one step right unless at the end or empty. */
    method MoveRight() returns (moved: bool)
      modifies this
      ensures items == old(items)
      ensures moved <==> old(items) != [] && old(selectedIndex) + 1 < |old(items)|
      ensures moved ==> selectedIndex == old(selectedIndex) + 1
      ensures !moved ==> selectedIndex == old(selectedIndex)
      ensures old(Valid()) ==> Valid()
    {
      if items != [] && selectedIndex + 1 < |items| {
        selectedIndex := selectedIndex + 1;
        return true;
      }
      return false;
    }

    /** `update_item_by_id`: apply `f` to the first item with `id`, if any. */
    method UpdateItemById(id: Uuid, f: LauncherItem -> LauncherItem)
      modifies this
      ensures items == UpdatedById(old(items), id, f)
      ensures selectedIndex == old(selectedIndex)
    {
      var found := FirstWithId(items, id);
      if found.Some? {
        items := items[found.value := f(items[found.value])];
      }
    }

    /** `add_item`: push, re-sort and clamp. */
    method AddItem(item: LauncherItem)
      modifies this
      ensures items == SortItems(old(items) + [item])
      ensures |items| == |old(items)| + 1 && multiset(items) == multiset(old(items)) + multiset{item}
      ensures old(selectedIndex) < |items| ==> selectedIndex == old(selectedIndex)
      ensures old(selectedIndex) >= |items| ==> selectedIndex == |items| - 1
      ensures Valid()
    {
      items := items + [item];
      SortInPlace();
      SortItemsOrder(old(items) + [item]);
      ClampIndex();
    }

    /** `remove_selected`: take out the selected item, if the index is on one. */
    method RemoveSelected() returns (removed: Option<LauncherItem>)
      modifies this
      ensures old(selectedIndex) < |old(items)| ==>
        removed == Some(old(items)[old(selectedIndex)]) &&
        items == old(items)[..old(selectedIndex)] + old(items)[old(selectedIndex) + 1..] &&
        (old(selectedIndex) < |items| ==> selectedIndex == old(selectedIndex)) &&
        (old(selectedIndex) >= |items| > 0 ==> selectedIndex == |items| - 1) &&
        Valid()
      ensures old(selectedIndex) >= |old(items)| ==>
        removed == None && items == old(items) && selectedIndex == old(selectedIndex)
    {
      if selectedIndex < |items| {
        var r := items[selectedIndex];
        items := items[..selectedIndex] + items[selectedIndex + 1..];
        ClampIndex();
        return Some(r);
      }
      return None;
    }

    /** `clamp_index`: an out-of-range selection moves to the last item, or to 0. */
    method ClampIndex()
      modifies this
      ensures items == old(items)
      ensures |items| == 0 ==> selectedIndex == 0
      ensures old(selectedIndex) < |items| ==> selectedIndex == old(selectedIndex)
      ensures old(selectedIndex) >= |items| > 0 ==> selectedIndex == |items| - 1
      ensures Valid()
    {
      var len := |items|;
      if len == 0 {
        selectedIndex := 0;
      } else if selectedIndex >= len {
        selectedIndex := len - 1;
      }
    }

    /** `sort_inplace`. */
    method SortInPlace()
      modifies this
      ensures items == SortItems(old(items))
      ensures selectedIndex == old(selectedIndex)
    {
      items := SortItems(items);
    }
  }

  /** A removal keeps the other items in their relative order. */
  lemma RemovalKeepsOrder(items: seq<LauncherItem>, i: nat)
    requires i < |items|
    ensures var r := items[..i] + items[i + 1..];
      |r| == |items| - 1 &&
      (forall j :: 0 <= j < i ==> r[j] == items[j]) &&
      (forall j :: i <= j < |r| ==> r[j] == items[j + 1]) &&
      multiset(r) + multiset{items[i]} == multiset(items)
  {
    var r := items[..i] + items[i + 1..];
    assert items == items[..i] + [items[i]] + items[i + 1..];
  }
}
