/**
 * The hotspot manager (`HotspotManager`): the registration list, the hovered
 * hotspot, the front-most hit test and the routing of clicks and item drops.
 * Hotspots are referred to by handle; the scene's hotspot objects live in a
 * handle-indexed map, and a registered handle missing from it is a destroyed
 * object. Whether a hotspot's bounds contain the pointer is given as a set of
 * handles.
 */
module HotspotRegistry {
  import opened Wrappers
  import opened GameData
  import opened IdLists
  import opened Hotspots

  type Handle = nat

  /** The scene's hotspot objects by handle. */
  type Objects = map<Handle, Hotspot>

  datatype Manager = Manager(registered: seq<Handle>, hovered: Option<Handle>)

  /** One hover notification sent to a hotspot. */
  datatype HoverCall = Exit(target: Handle) | Enter(target: Handle)

  /** The manager, the hotspot objects and the hover notifications of one call. */
  datatype Hover = Hover(m: Manager, objs: Objects, calls: seq<HoverCall>)

  /** The manager, the objects, the world and the events of a click or drop. */
  datatype Interaction = Interaction(m: Manager, objs: Objects, w: World, events: seq<Event>)

  /** Registration is duplicate-free and the hovered hotspot is a registered one. */
  predicate Wf(m: Manager) {
    NoDup(m.registered) && (m.hovered.Some? ==> m.hovered.value in m.registered)
  }

  function Empty(): (m: Manager)
    ensures Wf(m) && m.registered == [] && m.hovered.None?
  {
    Manager([], None)
  }

  /** `RegisterHotspot(h)`: ignores a null or already-registered hotspot, otherwise appends it. */
  function RegisterHotspot(m: Manager, h: Option<Handle>): (r: Manager)
    ensures h.None? || h.value in m.registered ==> r == m
    ensures h.Some? && h.value !in m.registered ==> r == m.(registered := m.registered + [h.value])
    ensures Wf(m) ==> Wf(r)
  {
    if h.None? then m else m.(registered := AddUnique(m.registered, h.value))
  }

  /** Send the hover exit to a hotspot, if the object still exists. */
  function ExitHover(objs: Objects, h: Handle): (r: Objects)
    ensures h in objs ==> r == objs[h := OnHoverExit(objs[h])]
    ensures h !in objs ==> r == objs
  {
    if h in objs then objs[h := OnHoverExit(objs[h])] else objs
  }

  /**
   * `UnregisterHotspot(h)`: ignores a null or unregistered hotspot; otherwise
   * removes it, first ending the hover if it was the hovered one.
   */
  function UnregisterHotspot(m: Manager, objs: Objects, h: Option<Handle>): (r: Hover)
    requires Wf(m)
    ensures Wf(r.m)
    ensures h.None? || h.value !in m.registered ==> r == Hover(m, objs, [])
    ensures h.Some? && h.value in m.registered ==>
      (forall x :: x in r.m.registered <==> x in m.registered && x != h.value) &&
      (m.hovered == h ==> r.m.hovered.None? && r.objs == ExitHover(objs, h.value) && r.calls == [Exit(h.value)]) &&
      (m.hovered != h ==> r.m.hovered == m.hovered && r.objs == objs && r.calls == [])
  {
    if h.None? || h.value !in m.registered then Hover(m, objs, [])
    else
      RemoveFirstNoDup(m.registered, h.value);
      var regs := RemoveFirst(m.registered, h.value);
      if m.hovered == h then Hover(Manager(regs, None), ExitHover(objs, h.value), [Exit(h.value)])
      else Hover(Manager(regs, m.hovered), objs, [])
  }

  /** `ClearAllHotspots()`: the hover ends and the registration list empties. */
  function ClearAllHotspots(m: Manager, objs: Objects): (r: Hover)
    ensures r.m == Empty()
    ensures m.hovered.None? ==> r.objs == objs && r.calls == []
    ensures m.hovered.Some? ==> r.objs == ExitHover(objs, m.hovered.value) && r.calls == [Exit(m.hovered.value)]
  {
    match m.hovered
    case None => Hover(Empty(), objs, [])
    case Some(h) => Hover(Empty(), ExitHover(objs, h), [Exit(h)])
  }

  /** A registered slot the hit test accepts: the object exists, is active, and contains the point. */
  predicate IsHit(objs: Objects, inside: set<Handle>, h: Handle) {
    h in objs && objs[h].isActive && h in inside
  }

  /** The index of the last registered hotspot hit, scanning from the back as the painter's order demands. */
  function TopIndex(regs: seq<Handle>, objs: Objects, inside: set<Handle>): (r: Option<nat>)
    ensures r.None? <==> forall j :: 0 <= j < |regs| ==> !IsHit(objs, inside, regs[j])
    ensures r.Some? ==>
      r.value < |regs| && IsHit(objs, inside, regs[r.value]) &&
      forall j :: r.value < j < |regs| ==> !IsHit(objs, inside, regs[j])
  {
    if |regs| == 0 then None
    else if IsHit(objs, inside, regs[|regs| - 1]) then Some(|regs| - 1)
    else
      var r := TopIndex(regs[..|regs| - 1], objs, inside);
      assert forall j :: 0 <= j < |regs| - 1 ==> regs[j] == regs[..|regs| - 1][j];
      r
  }

  /** `GetHotspotAtPosition(p)`: the front-most (last registered) active hotspot containing the point, or none. */
  function GetHotspotAtPosition(m: Manager, objs: Objects, inside: set<Handle>): (r: Option<Handle>)
    ensures r.None? <==> forall j :: 0 <= j < |m.registered| ==> !IsHit(objs, inside, m.registered[j])
    ensures r.Some? ==> IsHit(objs, inside, r.value) && r.value in m.registered
  {
    var i := TopIndex(m.registered, objs, inside);
    if i.None? then None else Some(m.registered[i.value])
  }

  /** The hover notifications of a change of target from `prev` to `next`; a destroyed previous target gets none. */
  function HoverCalls(objs: Objects, prev: Option<Handle>, next: Option<Handle>): seq<HoverCall> {
    (if prev.Some? && prev.value in objs then [Exit(prev.value)] else []) +
    (if next.Some? then [Enter(next.value)] else [])
  }

  /**
   * `CheckHover()`: when the hit target differs from the hovered hotspot, the
   * old one gets an exit and the new one an enter; an unchanged target sends nothing.
   */
  function CheckHover(m: Manager, objs: Objects, inside: set<Handle>): (r: Hover)
    requires Wf(m)
    ensures Wf(r.m) && r.m.registered == m.registered
    ensures r.m.hovered == GetHotspotAtPosition(m, objs, inside)
    ensures GetHotspotAtPosition(m, objs, inside) == m.hovered ==> r == Hover(m, objs, [])
    ensures GetHotspotAtPosition(m, objs, inside) != m.hovered ==>
      r.calls == HoverCalls(objs, m.hovered, r.m.hovered)
    ensures r.m.hovered.Some? ==> r.m.hovered.value in r.objs
    ensures r.m.hovered != m.hovered && r.m.hovered.Some? ==> r.objs[r.m.hovered.value].isHovered
    ensures forall h :: h in r.objs <==> h in objs
    ensures forall h :: h in objs ==> r.objs[h].isActive == objs[h].isActive
  {
    var target := GetHotspotAtPosition(m, objs, inside);
    if target == m.hovered then Hover(m, objs, [])
    else
      var objs1 := if m.hovered.Some? then ExitHover(objs, m.hovered.value) else objs;
      var objs2 := if target.Some? then objs1[target.value := OnHoverEnter(objs1[target.value])] else objs1;
      Hover(m.(hovered := target), objs2, HoverCalls(objs, m.hovered, target))
  }

  /**
   * Whether a click on `h` announces a scene transition before `HandleClick`
   * goes on: a navigation click whose load starts at once, which is the case
   * without a fade canvas. With a fade canvas the announcement waits for the
   * fade-out.
   */
  predicate AnnouncesTransitionAtOnce(h: Hotspot, w: World) {
    h.isActive && h.hotspotType == Navigation && h.targetSceneName != "" &&
    w.scenes.Some? && !w.scenes.value.hasFadeCanvas && !w.scenes.value.isTransitioning
  }

  /**
   * `HandleClick()`: ignored while an item is dragged from the inventory and
   * when nothing is hovered; otherwise the hovered hotspot handles the click
   * and the click is announced with the hovered hotspot. When the click has
   * already announced a scene transition, the manager's own subscriber has
   * cleared every hotspot by then, so the announcement carries no hotspot.
   */
  function HandleClick(m: Manager, objs: Objects, w: World, dragging: bool): (r: Interaction)
    ensures dragging || m.hovered.None? || m.hovered.value !in objs ==> r == Interaction(m, objs, w, [])
    ensures !dragging && m.hovered.Some? && m.hovered.value in objs ==>
      var h := m.hovered.value;
      var c := OnClicked(objs[h], w);
      r.w == c.w &&
      (AnnouncesTransitionAtOnce(objs[h], w) ==>
        r.m == Empty() && r.objs == ExitHover(objs[h := c.h], h) &&
        r.events == c.events + [Event(HotspotTriggered, NoData)]) &&
      (!AnnouncesTransitionAtOnce(objs[h], w) ==>
        r.m == m && r.objs == objs[h := c.h] &&
        r.events == c.events + [Event(HotspotTriggered, HotspotRef(objs[h].hotspotID))])
    ensures WorldValid(w) ==> WorldValid(r.w)
  {
    if dragging || m.hovered.None? || m.hovered.value !in objs then Interaction(m, objs, w, [])
    else
      var h := m.hovered.value;
      var c := OnClicked(objs[h], w);
      var objs1 := objs[h := c.h];
      if AnnouncesTransitionAtOnce(objs[h], w) then
        var cleared := OnSceneTransitionStart(m, objs1);
        Interaction(cleared.m, cleared.objs, c.w, c.events + [Event(HotspotTriggered, NoData)])
      else
        Interaction(m, objs1, c.w, c.events + [Event(HotspotTriggered, HotspotRef(objs[h].hotspotID))])
  }

  /**
   * A click on a navigation hotspot without a fade canvas: the transition is
   * announced, every hotspot is forgotten, the clicked one is no longer
   * hovered, and the click announcement that follows names no hotspot.
   */
  lemma NavigationClickClearsHotspots(m: Manager, objs: Objects, w: World)
    requires m.hovered.Some? && m.hovered.value in objs
    requires AnnouncesTransitionAtOnce(objs[m.hovered.value], w)
    ensures var r := HandleClick(m, objs, w, false);
      var target := objs[m.hovered.value].targetSceneName;
      r.m.registered == [] && r.m.hovered.None? && !r.objs[m.hovered.value].isHovered &&
      r.events == [Event(SceneTransitionStart, Text(target)), Event(HotspotTriggered, NoData)] &&
      r.w.scenes.Some? && r.w.scenes.value.isTransitioning
  {
  }

  /** The result of `HandleItemDrop`: whether the item was used, and the interaction. */
  datatype Drop = Drop(success: bool, out: Interaction)

  /**
   * `HandleItemDrop(item, position)`: false for a null item or when no
   * hotspot is hit; otherwise whatever the hit hotspot's `TryUseItem` answers.
   */
  function HandleItemDrop(m: Manager, objs: Objects, w: World, item: Option<ItemData>, inside: set<Handle>): (r: Drop)
    ensures item.None? || GetHotspotAtPosition(m, objs, inside).None? ==>
      r == Drop(false, Interaction(m, objs, w, []))
    ensures item.Some? && GetHotspotAtPosition(m, objs, inside).Some? ==>
      var h := GetHotspotAtPosition(m, objs, inside).value;
      var u := TryUseItem(objs[h], w, item);
      r == Drop(u.used, Interaction(m, objs[h := u.step.h], u.step.w, u.step.events))
    ensures r.success ==> item.Some? && exists h :: h in objs && IsHit(objs, inside, h) && Accepts(objs[h], item)
    ensures WorldValid(w) ==> WorldValid(r.out.w)
  {
    if item.None? then Drop(false, Interaction(m, objs, w, []))
    else match GetHotspotAtPosition(m, objs, inside)
      case None => Drop(false, Interaction(m, objs, w, []))
      case Some(h) =>
        var u := TryUseItem(objs[h], w, item);
        Drop(u.used, Interaction(m, objs[h := u.step.h], u.step.w, u.step.events))
  }

  /** `OnSceneTransitionStart`: a scene change forgets every hotspot. */
  function OnSceneTransitionStart(m: Manager, objs: Objects): (r: Hover)
    ensures r == ClearAllHotspots(m, objs)
    ensures r.m.registered == [] && r.m.hovered.None?
  {
    ClearAllHotspots(m, objs)
  }

  /** A second hover check at the same pointer position sends no notifications and changes nothing. */
  lemma {:induction false} HoverSettles(m: Manager, objs: Objects, inside: set<Handle>)
    requires Wf(m)
    ensures var first := CheckHover(m, objs, inside);
      CheckHover(first.m, first.objs, inside) == Hover(first.m, first.objs, [])
  {
    var first := CheckHover(m, objs, inside);
    SameHits(m.registered, objs, first.objs, inside);
  }

  /** Two object maps that agree on existence and the active flag give the same hit test. */
  lemma {:induction false} SameHits(regs: seq<Handle>, objs: Objects, objs2: Objects, inside: set<Handle>)
    requires forall h :: h in objs2 <==> h in objs
    requires forall h :: h in objs ==> objs2[h].isActive == objs[h].isActive
    ensures TopIndex(regs, objs2, inside) == TopIndex(regs, objs, inside)
  {
    if |regs| > 0 {
      SameHits(regs[..|regs| - 1], objs, objs2, inside);
    }
  }
}
