/**
 * One interactive hotspot (`HotspotComponent`): its hover flag, the click
 * dispatch on its type, and the pickup and item-use transitions it makes
 * against the inventory, the game state and the current scene's state.
 */
module Hotspots {
  import opened Wrappers
  import opened GameData
  import GS = GameStateData
  import Inv = Inventory
  import SC = SceneControl
  import SS = SceneStates

  datatype Hotspot = Hotspot(
    hotspotID: string,
    hotspotType: HotspotType,
    isActive: bool,
    itemToPickup: Option<ItemData>,
    disableAfterPickup: bool,
    requiredItem: Option<ItemData>,
    successEventName: string,
    consumeItemOnUse: bool,
    targetSceneName: string,
    puzzleID: string,
    examineText: string,
    isHovered: bool)

  /**
   * What a hotspot reaches besides itself: the inventory and the scene
   * controller, either of which may be missing from the scene, and the game state.
   */
  datatype World = World(inv: Option<Inv.Inventory>, game: GS.GameState, scenes: Option<SC.Controller>)

  /** A hotspot, its world and the events published by one call. */
  datatype HStep = HStep(h: Hotspot, w: World, events: seq<Event>)

  /** The result of `TryUseItem`: whether the item was accepted, and the step. */
  datatype UseResult = UseResult(used: bool, step: HStep)

  /** The inventory, when there is one, is consistent with the game state. */
  predicate WorldValid(w: World) {
    w.inv.Some? ==> Inv.Valid(w.inv.value, w.game)
  }

  /** The current scene's state lists the hotspot as disabled. */
  predicate DisabledInScene(c: SC.Controller, hotspotID: string) {
    var key := SC.StateKey(c, c.currentSceneName);
    key in c.sceneStates && SS.IsHotspotDisabled(c.sceneStates[key], hotspotID)
  }

  /** `SetActive(active)`: deactivating a hovered hotspot also leaves the hover. */
  function SetActive(h: Hotspot, active: bool): (r: Hotspot)
    ensures r.isActive == active
    ensures r.isHovered == (active && h.isHovered)
    ensures r == h.(isActive := r.isActive, isHovered := r.isHovered)
  {
    if !active && h.isHovered then OnHoverExit(h.(isActive := active)) else h.(isActive := active)
  }

  /** `OnHoverEnter()`: an inactive hotspot ignores the pointer. */
  function OnHoverEnter(h: Hotspot): (r: Hotspot)
    ensures !h.isActive ==> r == h
    ensures h.isActive ==> r == h.(isHovered := true)
  {
    if !h.isActive then h else h.(isHovered := true)
  }

  /** `OnHoverExit()`: the hover ends whatever the active flag says. */
  function OnHoverExit(h: Hotspot): (r: Hotspot)
    ensures !r.isHovered && r == h.(isHovered := false)
  {
    h.(isHovered := false)
  }

  /** Record the hotspot as disabled in the current scene's state, when there is a scene controller. */
  function DisableInScene(scenes: Option<SC.Controller>, hotspotID: string): (r: Option<SC.Controller>)
    ensures scenes.None? ==> r.None?
    ensures scenes.Some? ==>
      r.Some? && DisabledInScene(r.value, hotspotID) &&
      r.value == scenes.value.(sceneStates := r.value.sceneStates)
  {
    match scenes
    case None => None
    case Some(c) => Some(SC.DisableHotspotInScene(c, c.currentSceneName, hotspotID))
  }

  /**
   * `CheckSceneState()` at start: with a scene controller, look up the current
   * scene's state (creating it if missing) and deactivate the hotspot when that
   * state lists it as disabled.
   */
  function CheckSceneState(h: Hotspot, w: World): (r: HStep)
    ensures r.events == [] && r.w.inv == w.inv && r.w.game == w.game
    ensures w.scenes.None? ==> r == HStep(h, w, [])
    ensures w.scenes.Some? ==>
      var l := SC.GetSceneState(w.scenes.value, w.scenes.value.currentSceneName);
      r.w.scenes == Some(l.ctrl) &&
      r.h == (if SS.IsHotspotDisabled(l.state, h.hotspotID) then SetActive(h, false) else h)
    ensures w.scenes.Some? && DisabledInScene(w.scenes.value, h.hotspotID) ==> !r.h.isActive
  {
    match w.scenes
    case None => HStep(h, w, [])
    case Some(c) =>
      var l := SC.GetSceneState(c, c.currentSceneName);
      var h1 := if SS.IsHotspotDisabled(l.state, h.hotspotID) then SetActive(h, false) else h;
      HStep(h1, w.(scenes := Some(l.ctrl)), [])
  }

  /**
   * `ExecutePickupAction()`: nothing without an item to pick up or an inventory.
   * When the inventory accepts the item, the hotspot is always recorded as
   * disabled in the scene, but it is deactivated only if `disableAfterPickup`.
   */
  function ExecutePickupAction(h: Hotspot, w: World): (r: HStep)
    ensures h.itemToPickup.None? || w.inv.None? ==> r == HStep(h, w, [])
    ensures h.itemToPickup.Some? && w.inv.Some? ==>
      var a := Inv.AddItem(w.inv.value, w.game, h.itemToPickup);
      r.w.inv == Some(a.out.inv) && r.w.game == a.out.game && r.events == a.out.events &&
      (!a.added ==> r == HStep(h, w, [])) &&
      (a.added ==>
        r.w.scenes == DisableInScene(w.scenes, h.hotspotID) &&
        r.h == (if h.disableAfterPickup then SetActive(h, false) else h))
    ensures WorldValid(w) ==> WorldValid(r.w)
  {
    if h.itemToPickup.None? || w.inv.None? then HStep(h, w, [])
    else
      var a := Inv.AddItem(w.inv.value, w.game, h.itemToPickup);
      if !a.added then HStep(h, w, [])
      else
        var h1 := if h.disableAfterPickup then SetActive(h, false) else h;
        HStep(h1, World(Some(a.out.inv), a.out.game, DisableInScene(w.scenes, h.hotspotID)), a.out.events)
  }

  /** The event a hotspot publishes under its success name, or nothing when the name is empty. */
  function SuccessEvents(h: Hotspot): (es: seq<Event>)
    ensures h.successEventName == "" <==> es == []
    ensures h.successEventName != "" ==> es == [Event(h.successEventName, HotspotRef(h.hotspotID))]
  {
    if h.successEventName == "" then [] else [Event(h.successEventName, HotspotRef(h.hotspotID))]
  }

  /**
   * `ExecuteItemUseAction(item)`: the item is removed when it is consumed and
   * there is an inventory, and otherwise only deselected; the success event is
   * published, the hotspot recorded as disabled in the scene and deactivated.
   */
  function ExecuteItemUseAction(h: Hotspot, w: World, used: ItemData): (r: HStep)
    ensures r.h == SetActive(h, false) && !r.h.isActive && !r.h.isHovered
    ensures r.w.scenes == DisableInScene(w.scenes, h.hotspotID)
    ensures w.inv.None? ==> r.w.inv.None? && r.w.game == w.game && r.events == SuccessEvents(h)
    ensures h.consumeItemOnUse && w.inv.Some? ==>
      var o := Inv.RemoveItem(w.inv.value, w.game, Some(used));
      r.w.inv == Some(o.inv) && r.w.game == o.game && r.events == o.events + SuccessEvents(h)
    ensures !h.consumeItemOnUse && w.inv.Some? ==>
      var d := Inv.DeselectItem(w.inv.value);
      r.w.inv == Some(d.inv) && r.w.game == w.game && r.events == d.events + SuccessEvents(h)
    ensures WorldValid(w) ==> WorldValid(r.w)
  {
    var (inv, game, events) :=
      if w.inv.None? then (None, w.game, [])
      else if h.consumeItemOnUse then
        var o := Inv.RemoveItem(w.inv.value, w.game, Some(used));
        (Some(o.inv), o.game, o.events)
      else
        var d := Inv.DeselectItem(w.inv.value);
        (Some(d.inv), w.game, d.events);
    HStep(SetActive(h, false), World(inv, game, DisableInScene(w.scenes, h.hotspotID)), events + SuccessEvents(h))
  }

  /** The item is the one this item-use hotspot requires, compared by id. */
  predicate Accepts(h: Hotspot, used: Option<ItemData>) {
    h.isActive && h.hotspotType == ItemUse && used.Some? && h.requiredItem.Some? &&
    used.value.itemID == h.requiredItem.value.itemID
  }

  /**
   * `TryUseItem(item)`: refused, changing nothing, on an inactive or
   * non-item-use hotspot, for a missing item or requirement, or for a different
   * id; otherwise the item-use action runs.
   */
  function TryUseItem(h: Hotspot, w: World, used: Option<ItemData>): (r: UseResult)
    ensures r.used <==> Accepts(h, used)
    ensures !r.used ==> r.step == HStep(h, w, [])
    ensures r.used ==> r.step == ExecuteItemUseAction(h, w, used.value)
  {
    if Accepts(h, used) then UseResult(true, ExecuteItemUseAction(h, w, used.value))
    else UseResult(false, HStep(h, w, []))
  }

  /**
   * `ExecuteNavigationAction()`: with a target and a scene controller, ask the
   * controller for the transition; only the controller changes, and it keeps
   * its current scene and every stored entry.
   */
  function ExecuteNavigationAction(h: Hotspot, w: World): (r: HStep)
    ensures r.h == h && r.w == w.(scenes := r.w.scenes)
    ensures h.targetSceneName == "" || w.scenes.None? ==> r == HStep(h, w, [])
    ensures h.targetSceneName != "" && w.scenes.Some? ==>
      var c := w.scenes.value;
      r.w.scenes.Some? && r.w.scenes.value.currentSceneName == c.currentSceneName &&
      (forall k :: k in c.sceneStates ==> k in r.w.scenes.value.sceneStates && r.w.scenes.value.sceneStates[k] == c.sceneStates[k]) &&
      (c.hasFadeCanvas || !c.isTransitioning <==> r.events == [Event(SceneTransitionStart, Text(h.targetSceneName))]) &&
      (c.hasFadeCanvas || !c.isTransitioning ==> r.w.scenes.value.isTransitioning) &&
      (!c.hasFadeCanvas && c.isTransitioning ==> r == HStep(h, w, []))
    ensures WorldValid(w) ==> WorldValid(r.w)
  {
    if h.targetSceneName == "" || w.scenes.None? then HStep(h, w, [])
    else
      var t := SC.TransitionToScene(w.scenes.value, h.targetSceneName);
      HStep(h, w.(scenes := Some(t.ctrl)), t.events)
  }

  /** `ExecutePuzzleAction()`: with a puzzle id, ask for that puzzle to be shown. */
  function PuzzleEvents(h: Hotspot): (es: seq<Event>)
    ensures h.puzzleID == "" <==> es == []
    ensures h.puzzleID != "" ==> es == [Event(GameData.ShowPuzzle, Text(h.puzzleID))]
  {
    if h.puzzleID == "" then [] else [Event(GameData.ShowPuzzle, Text(h.puzzleID))]
  }

  /** `ExecuteExamineAction()`: the examine text if there is one, else the success event, else nothing. */
  function ExamineEvents(h: Hotspot): (es: seq<Event>)
    ensures |es| <= 1
    ensures h.examineText != "" ==> es == [Event(ShowDialogue, Text(h.examineText))]
    ensures h.examineText == "" ==> es == SuccessEvents(h)
  {
    if h.examineText != "" then [Event(ShowDialogue, Text(h.examineText))] else SuccessEvents(h)
  }

  /** The dialogue shown when the selected item is the wrong one. */
  function WrongItemText(h: Hotspot, held: ItemData): string {
    var needed := if h.requiredItem.Some? then h.requiredItem.value.itemName else "???";
    "Cần dùng: <b>" + needed + "</b>\nBạn đang giữ: <b>" + held.itemName + "</b>"
  }

  /** The dialogue shown when nothing is selected. */
  function NoItemText(h: Hotspot): string {
    var needed := if h.requiredItem.Some? then h.requiredItem.value.itemName else "vật phẩm phù hợp";
    "Cần dùng <b>" + needed + "</b> vào đây.\nChọn vật phẩm từ túi đồ trước!"
  }

  /**
   * `OnClicked()` of an item-use hotspot: with an inventory, the selected item
   * is tried and a refusal explained in a dialogue; with nothing selected the
   * dialogue asks for an item.
   */
  function ClickItemUse(h: Hotspot, w: World): (r: HStep)
    ensures w.inv.None? ==> r == HStep(h, w, [])
    ensures w.inv.Some? && w.inv.value.selected.None? ==>
      r == HStep(h, w, [Event(ShowDialogue, Text(NoItemText(h)))])
    ensures w.inv.Some? && w.inv.value.selected.Some? ==>
      var sel := w.inv.value.selected;
      (Accepts(h, sel) ==> r == ExecuteItemUseAction(h, w, sel.value)) &&
      (!Accepts(h, sel) ==> r == HStep(h, w, [Event(ShowDialogue, Text(WrongItemText(h, sel.value)))]))
  {
    if w.inv.None? then HStep(h, w, [])
    else match w.inv.value.selected
      case None => HStep(h, w, [Event(ShowDialogue, Text(NoItemText(h)))])
      case Some(sel) =>
        var u := TryUseItem(h, w, Some(sel));
        if u.used then u.step
        else HStep(h, w, [Event(ShowDialogue, Text(WrongItemText(h, sel)))])
  }

  /** `OnClicked()`: nothing on an inactive hotspot; otherwise the action of its type. */
  function OnClicked(h: Hotspot, w: World): (r: HStep)
    ensures !h.isActive ==> r == HStep(h, w, [])
    ensures h.isActive ==> r == match h.hotspotType
      case Pickup => ExecutePickupAction(h, w)
      case Navigation => ExecuteNavigationAction(h, w)
      case Puzzle => HStep(h, w, PuzzleEvents(h))
      case ItemUse => ClickItemUse(h, w)
      case Examine => HStep(h, w, ExamineEvents(h))
    ensures WorldValid(w) ==> WorldValid(r.w)
  {
    if !h.isActive then HStep(h, w, [])
    else match h.hotspotType
      case Pickup => ExecutePickupAction(h, w)
      case Navigation => ExecuteNavigationAction(h, w)
      case Puzzle => HStep(h, w, PuzzleEvents(h))
      case ItemUse => ClickItemUse(h, w)
      case Examine => HStep(h, w, ExamineEvents(h))
  }

  /**
   * Clicking an active navigation hotspot twice: the first click announces the
   * transition to its target; without a fade canvas the second click, arriving
   * while that transition runs, publishes nothing, but with a fade canvas it
   * announces a second transition.
   */
  lemma NavigationClickTwice(h: Hotspot, w: World)
    requires h.isActive && h.hotspotType == Navigation && h.targetSceneName != ""
    requires w.scenes.Some? && !w.scenes.value.isTransitioning
    ensures var first := OnClicked(h, w);
      var second := OnClicked(first.h, first.w);
      var start := Event(SceneTransitionStart, Text(h.targetSceneName));
      first.events == [start] && first.w.scenes.Some? && first.w.scenes.value.isTransitioning &&
      (w.scenes.value.hasFadeCanvas <==> second.events == [start])
  {
  }

  /**
   * A picked-up hotspot stays gone: when the same hotspot is set up again in
   * the scene (a fresh, active copy checking the scene state), it deactivates.
   */
  lemma PickupPersists(h: Hotspot, w: World)
    requires h.itemToPickup.Some? && w.inv.Some? && w.scenes.Some?
    requires Inv.AddItem(w.inv.value, w.game, h.itemToPickup).added
    ensures var r := ExecutePickupAction(h, w);
      !CheckSceneState(h.(isActive := true), r.w).h.isActive
  {
  }

  /** Likewise a hotspot that accepted its item stays deactivated when set up again. */
  lemma ItemUsePersists(h: Hotspot, w: World, used: Option<ItemData>)
    requires Accepts(h, used) && w.scenes.Some?
    ensures var r := TryUseItem(h, w, used).step;
      !CheckSceneState(h.(isActive := true), r.w).h.isActive
  {
  }

  /** A consumed item leaves both the inventory and the game state's collected ids. */
  lemma ConsumedItemIsGone(h: Hotspot, w: World, used: Option<ItemData>)
    requires Accepts(h, used) && h.consumeItemOnUse && w.inv.Some? && WorldValid(w)
    requires Inv.HasItem(w.inv.value, used.value.itemID)
    ensures var r := TryUseItem(h, w, used).step;
      r.w.inv.Some? && !Inv.HasItem(r.w.inv.value, used.value.itemID) &&
      !GS.HasItem(r.w.game, used.value.itemID)
  {
  }

  /** A tool that is not consumed stays held, deselected. */
  lemma ToolIsKept(h: Hotspot, w: World, used: Option<ItemData>)
    requires Accepts(h, used) && !h.consumeItemOnUse && w.inv.Some?
    ensures var r := TryUseItem(h, w, used).step;
      r.w.inv.Some? && r.w.inv.value.items == w.inv.value.items && r.w.inv.value.selected.None?
  {
  }
}
