/**
 * The player's inventory (`InventorySystem`): a bounded list of items, no two
 * with the same id, at most one of them selected, mirrored into the game
 * state's collected-id list. Items are identified by `itemID`.
 */
module Inventory {
  import opened Wrappers
  import opened GameData
  import opened IdLists
  import GS = GameStateData

  /** Default capacity of the inventory. */
  const DefaultSlots: int := 20

  datatype Inventory = Inventory(items: seq<ItemData>, selected: Option<ItemData>, maxSlots: int)

  /** The inventory, the game state and the events published by one call. */
  datatype Outcome = Outcome(inv: Inventory, game: GS.GameState, events: seq<Event>)

  /** `AddItem`'s boolean result together with its outcome. */
  datatype AddResult = AddResult(added: bool, out: Outcome)

  function NewInventory(): (inv: Inventory)
    ensures inv.items == [] && inv.selected.None? && inv.maxSlots == DefaultSlots
  {
    Inventory([], None, DefaultSlots)
  }

  /** The ids of a list of items, in order. */
  function Ids(items: seq<ItemData>): (ids: seq<string>)
    ensures |ids| == |items|
    ensures forall i :: 0 <= i < |items| ==> ids[i] == items[i].itemID
  {
    if |items| == 0 then [] else [items[0].itemID] + Ids(items[1..])
  }

  /** `HasItem(itemID)`: whether some held item carries this id. */
  function HasItem(inv: Inventory, itemID: string): (r: bool)
    ensures r <==> exists i :: 0 <= i < |inv.items| && inv.items[i].itemID == itemID
  {
    itemID in Ids(inv.items)
  }

  /** No two held items share an id. */
  predicate UniqueIds(items: seq<ItemData>) {
    NoDup(Ids(items))
  }

  /** The selection, if any, is a held item. */
  predicate SelectionHeld(inv: Inventory) {
    inv.selected.Some? ==> HasItem(inv, inv.selected.value.itemID)
  }

  /** Every held item's id is recorded as collected in the game state. */
  predicate Coupled(inv: Inventory, game: GS.GameState) {
    forall id :: id in Ids(inv.items) ==> GS.HasItem(game, id)
  }

  /** The invariant every public operation keeps. */
  predicate Valid(inv: Inventory, game: GS.GameState) {
    UniqueIds(inv.items) && |inv.items| <= inv.maxSlots && SelectionHeld(inv) &&
    Coupled(inv, game) && GS.Valid(game)
  }

  /** `IsInventoryFull()`: no room for one more item; within the slot bound, every slot is taken. */
  function IsInventoryFull(inv: Inventory): (r: bool)
    ensures !r ==> |inv.items| + 1 <= inv.maxSlots
    ensures |inv.items| <= inv.maxSlots ==> (r <==> |inv.items| == inv.maxSlots)
  {
    |inv.items| >= inv.maxSlots
  }

  /** `CanUseItem(item)`: a null item is never usable; otherwise the item's own flag decides. */
  function CanUseItem(item: Option<ItemData>): (r: bool)
    ensures item.None? ==> !r
    ensures item.Some? ==> (r <==> item.value.isUsable)
  {
    item.Some? && item.value.isUsable
  }

  /**
   * `AddItem(item)`: refused for a null item, a full inventory or an id already
   * held; otherwise the item is appended, its id recorded in the game state,
   * and a MiniBug also bumps the game's bug counter.
   */
  function AddItem(inv: Inventory, game: GS.GameState, item: Option<ItemData>): (r: AddResult)
    ensures !r.added <==> item.None? || IsInventoryFull(inv) || HasItem(inv, item.value.itemID)
    ensures !r.added ==> r.out == Outcome(inv, game, [])
    ensures r.added ==>
      r.out.inv == inv.(items := inv.items + [item.value]) &&
      r.out.game.collectedItemIDs == AddUnique(game.collectedItemIDs, item.value.itemID) &&
      r.out.game.miniBugsCollected == game.miniBugsCollected + (if item.value.isMiniBug then 1 else 0) &&
      r.out.game == game.(collectedItemIDs := r.out.game.collectedItemIDs,
                          miniBugsCollected := r.out.game.miniBugsCollected) &&
      (if item.value.isMiniBug then |r.out.events| == 3 else |r.out.events| == 2) &&
      r.out.events[..2] == [Event(ItemCollected, Item(item.value)), Event(InventoryUpdated, NoData)] &&
      (item.value.isMiniBug ==> r.out.events[2] == Event(MiniBugCollected, Item(item.value)))
    ensures Valid(inv, game) ==> Valid(r.out.inv, r.out.game)
  {
    if item.None? || IsInventoryFull(inv) || HasItem(inv, item.value.itemID) then
      AddResult(false, Outcome(inv, game, []))
    else
      var it := item.value;
      AppendKeepsValid(inv, game, it);
      var inv1 := inv.(items := inv.items + [it]);
      var game1 := GS.AddCollectedItem(game, it.itemID);
      var events := [Event(ItemCollected, Item(it)), Event(InventoryUpdated, NoData)];
      if it.isMiniBug then
        AddResult(true, Outcome(inv1, game1.(miniBugsCollected := game1.miniBugsCollected + 1),
                                events + [Event(MiniBugCollected, Item(it))]))
      else
        AddResult(true, Outcome(inv1, game1, events))
  }

  /** Ids of a list with one item appended. */
  lemma IdsAppend(items: seq<ItemData>, item: ItemData)
    ensures Ids(items + [item]) == Ids(items) + [item.itemID]
  {
    assert forall i :: 0 <= i < |items| ==> (items + [item])[i] == items[i];
  }

  /** Appending an item with a fresh id, with room left, and recording the id keeps the invariant. */
  lemma AppendKeepsValid(inv: Inventory, game: GS.GameState, item: ItemData)
    requires !IsInventoryFull(inv) && !HasItem(inv, item.itemID)
    ensures var game1 := GS.AddCollectedItem(game, item.itemID);
      Valid(inv, game) ==>
        Valid(inv.(items := inv.items + [item]), game1) &&
        Valid(inv.(items := inv.items + [item]), game1.(miniBugsCollected := game1.miniBugsCollected + 1))
  {
    IdsAppend(inv.items, item);
    assert AddUnique(Ids(inv.items), item.itemID) == Ids(inv.items) + [item.itemID];
  }

  /** Position `k` holds the first item with this id. */
  ghost predicate FirstWithId(items: seq<ItemData>, itemID: string, k: int) {
    0 <= k < |items| && items[k].itemID == itemID &&
    forall j :: 0 <= j < k ==> items[j].itemID != itemID
  }

  /** What `RemoveById` promises about its result. */
  ghost predicate RemovedFirst(items: seq<ItemData>, itemID: string, r: seq<ItemData>) {
    (itemID !in Ids(items) ==> r == items) &&
    (itemID in Ids(items) ==> exists k :: FirstWithId(items, itemID, k) && r == items[..k] + items[k + 1..])
  }

  /** `collectedItems.Remove(item)`: the first item with that id goes, the others keep their order. */
  function RemoveById(items: seq<ItemData>, itemID: string): (r: seq<ItemData>)
    ensures multiset(r) <= multiset(items)
    ensures RemovedFirst(items, itemID, r)
  {
    if |items| == 0 then []
    else if items[0].itemID == itemID then
      assert items == [items[0]] + items[1..];
      assert FirstWithId(items, itemID, 0) && items[1..] == items[..0] + items[0 + 1..];
      items[1..]
    else
      assert items == [items[0]] + items[1..];
      var rest := RemoveById(items[1..], itemID);
      RemovedFirstCons(items, itemID, rest);
      [items[0]] + rest
  }

  /** Keeping a head whose id differs extends a first-occurrence removal from the tail to the whole list. */
  lemma RemovedFirstCons(items: seq<ItemData>, itemID: string, rest: seq<ItemData>)
    requires |items| > 0 && items[0].itemID != itemID
    requires RemovedFirst(items[1..], itemID, rest)
    ensures RemovedFirst(items, itemID, [items[0]] + rest)
  {
    var t := items[1..];
    IdsCons(items);
    if itemID in Ids(t) {
      var k :| FirstWithId(t, itemID, k) && rest == t[..k] + t[k + 1..];
      FirstWithIdShift(items, itemID, k);
      SliceAfterHead(items, k);
    } else {
      assert items == [items[0]] + t;
    }
  }

  lemma IdsCons(items: seq<ItemData>)
    requires |items| > 0
    ensures Ids(items) == [items[0].itemID] + Ids(items[1..])
  {
  }

  lemma FirstWithIdShift(items: seq<ItemData>, itemID: string, k: int)
    requires |items| > 0 && items[0].itemID != itemID && FirstWithId(items[1..], itemID, k)
    ensures FirstWithId(items, itemID, k + 1)
  {
    forall j | 0 <= j < k + 1 ensures items[j].itemID != itemID {
      if j > 0 { assert items[j] == items[1..][j - 1]; }
    }
  }

  lemma SliceAfterHead(items: seq<ItemData>, k: int)
    requires 0 <= k < |items| - 1
    ensures [items[0]] + (items[1..][..k] + items[1..][k + 1..]) == items[..k + 1] + items[k + 2..]
  {
  }



  /** On ids, removing by id is `List.Remove` of the id. */
  lemma {:induction false} RemoveByIdIds(items: seq<ItemData>, itemID: string)
    ensures Ids(RemoveById(items, itemID)) == RemoveFirst(Ids(items), itemID)
  {
    if |items| > 0 {
      var ids := Ids(items);
      assert ids == [items[0].itemID] + Ids(items[1..]);
      if items[0].itemID != itemID {
        RemoveByIdIds(items[1..], itemID);
        var rest := RemoveById(items[1..], itemID);
        assert Ids([items[0]] + rest) == [items[0].itemID] + Ids(rest);
      }
    }
  }

  /** On a list with unique ids, removing by id drops exactly that id and keeps the ids unique. */
  lemma RemoveByIdUnique(items: seq<ItemData>, itemID: string)
    requires UniqueIds(items)
    ensures var r := RemoveById(items, itemID);
      UniqueIds(r) && |r| <= |items| &&
      forall id :: id in Ids(r) <==> id in Ids(items) && id != itemID
  {
    RemoveByIdIds(items, itemID);
    RemoveFirstNoDup(Ids(items), itemID);
    assert |Ids(RemoveById(items, itemID))| <= |Ids(items)|;
  }

  /**
   * `RemoveItem(item)`: a no-op for a null or unheld item. Otherwise a selected
   * item is deselected first, the item leaves the list and its id leaves the
   * game state's collected ids.
   */
  function RemoveItem(inv: Inventory, game: GS.GameState, item: Option<ItemData>): (r: Outcome)
    ensures item.None? || !HasItem(inv, item.value.itemID) ==> r == Outcome(inv, game, [])
    ensures item.Some? && HasItem(inv, item.value.itemID) ==>
      r.inv.items == RemoveById(inv.items, item.value.itemID) &&
      r.inv.maxSlots == inv.maxSlots &&
      r.game == GS.RemoveCollectedItem(game, item.value.itemID) &&
      r.events == DeselectEvents(inv, item.value.itemID) +
        [Event(ItemUsed, Item(item.value)), Event(InventoryUpdated, NoData)]
    ensures item.Some? && HasItem(inv, item.value.itemID) ==>
      if IsSelected(inv, item.value.itemID) then r.inv.selected.None? else r.inv.selected == inv.selected
    ensures Valid(inv, game) ==> Valid(r.inv, r.game)
    ensures Valid(inv, game) && item.Some? ==> !HasItem(r.inv, item.value.itemID)
    ensures Valid(inv, game) && item.Some? && HasItem(inv, item.value.itemID) ==>
      !GS.HasItem(r.game, item.value.itemID)
  {
    if item.None? || !HasItem(inv, item.value.itemID) then Outcome(inv, game, [])
    else
      var id := item.value.itemID;
      var inv1 := if IsSelected(inv, id) then DeselectItem(inv).inv else inv;
      var inv2 := inv1.(items := RemoveById(inv.items, id));
      var game2 := GS.RemoveCollectedItem(game, id);
      RemovePreservesValid(inv, inv2, game, game2, id);
      Outcome(inv2, game2, DeselectEvents(inv, id) + [Event(ItemUsed, Item(item.value)), Event(InventoryUpdated, NoData)])
  }

  /** Whether the selected item has this id. */
  predicate IsSelected(inv: Inventory, itemID: string) {
    inv.selected.Some? && inv.selected.value.itemID == itemID
  }

  /** The deselection announced before removing `itemID`: only when that item is the selected one. */
  function DeselectEvents(inv: Inventory, itemID: string): (es: seq<Event>)
    ensures IsSelected(inv, itemID) ==> es == [Event(ItemDeselected, Item(inv.selected.value))]
    ensures !IsSelected(inv, itemID) ==> es == []
  {
    if IsSelected(inv, itemID) then DeselectItem(inv).events else []
  }

  lemma RemovePreservesValid(inv: Inventory, inv2: Inventory, game: GS.GameState, game2: GS.GameState, id: string)
    requires inv2.items == RemoveById(inv.items, id) && inv2.maxSlots == inv.maxSlots
    requires inv2.selected == inv.selected || inv2.selected.None?
    requires inv.selected.Some? && inv.selected.value.itemID == id ==> inv2.selected.None?
    requires game2 == GS.RemoveCollectedItem(game, id)
    ensures Valid(inv, game) ==> Valid(inv2, game2) && !HasItem(inv2, id)
  {
    if Valid(inv, game) {
      RemoveByIdUnique(inv.items, id);
      assert SelectionHeld(inv2);
      assert Coupled(inv2, game2) by {
        forall x | x in Ids(inv2.items) ensures GS.HasItem(game2, x) {
          assert x in Ids(inv.items) && x != id;
        }
      }
    }
  }

  /** `SelectItem(item)`: only a held item can be selected. */
  function SelectItem(inv: Inventory, item: Option<ItemData>): (r: (Inventory, seq<Event>))
    ensures item.None? || !HasItem(inv, item.value.itemID) ==> r == (inv, [])
    ensures item.Some? && HasItem(inv, item.value.itemID) ==>
      r.0 == inv.(selected := item) && r.1 == [Event(ItemSelected, Item(item.value))]
    ensures SelectionHeld(inv) ==> SelectionHeld(r.0)
  {
    if item.None? || !HasItem(inv, item.value.itemID) then (inv, [])
    else (inv.(selected := item), [Event(ItemSelected, Item(item.value))])
  }

  /** The inventory and the events of a call that leaves the game state alone. */
  datatype InvStep = InvStep(inv: Inventory, events: seq<Event>)

  /** `DeselectItem()`: a no-op with nothing selected; otherwise clears the selection and announces the previous one. */
  function DeselectItem(inv: Inventory): (r: InvStep)
    ensures r.inv.selected.None? && r.inv.items == inv.items && r.inv.maxSlots == inv.maxSlots
    ensures inv.selected.None? ==> r == InvStep(inv, [])
    ensures inv.selected.Some? ==> r.events == [Event(ItemDeselected, Item(inv.selected.value))]
  {
    match inv.selected
    case None => InvStep(inv, [])
    case Some(prev) => InvStep(inv.(selected := None), [Event(ItemDeselected, Item(prev))])
  }

  /** `ClearInventory()`: no items, no selection, and the game state's ids are left as they were. */
  function ClearInventory(inv: Inventory, game: GS.GameState): (r: Outcome)
    ensures r.inv.items == [] && r.inv.selected.None? && r.inv.maxSlots == inv.maxSlots
    ensures r.game == game
    ensures r.events == [Event(InventoryUpdated, NoData)]
    ensures GS.Valid(game) && inv.maxSlots >= 0 ==> Valid(r.inv, r.game)
  {
    Outcome(Inventory([], None, inv.maxSlots), game, [Event(InventoryUpdated, NoData)])
  }

  /** An item just added can be taken out again, returning the inventory to where it was. */
  lemma AddThenRemove(inv: Inventory, game: GS.GameState, item: ItemData)
    requires Valid(inv, game)
    requires AddItem(inv, game, Some(item)).added
    ensures var a := AddItem(inv, game, Some(item)).out;
      RemoveItem(a.inv, a.game, Some(item)).inv == inv
  {
    IdsAppend(inv.items, item);
    RemoveByIdLast(inv.items, item);
    var a := AddItem(inv, game, Some(item)).out;
    assert a.inv.items == inv.items + [item];
    assert HasItem(a.inv, item.itemID);
  }

  /** Removing the id of an appended, previously absent item gives back the original list. */
  lemma RemoveByIdLast(items: seq<ItemData>, item: ItemData)
    requires item.itemID !in Ids(items)
    ensures RemoveById(items + [item], item.itemID) == items
  {
    var all := items + [item];
    var n := |items|;
    assert FirstWithId(all, item.itemID, n) by {
      forall j | 0 <= j < n ensures all[j].itemID != item.itemID {
        assert Ids(items)[j] == items[j].itemID;
      }
    }
    RemovedFirstAt(all, item.itemID, RemoveById(all, item.itemID), n);
    assert all[..n] == items && all[n + 1..] == [];
  }

  /** The removal cuts out exactly the first position holding the id. */
  lemma RemovedFirstAt(items: seq<ItemData>, itemID: string, r: seq<ItemData>, k: int)
    requires RemovedFirst(items, itemID, r) && FirstWithId(items, itemID, k)
    ensures r == items[..k] + items[k + 1..]
  {
    assert Ids(items)[k] == itemID;
    var k' :| FirstWithId(items, itemID, k') && r == items[..k'] + items[k' + 1..];
    assert k' == k;
  }
}
