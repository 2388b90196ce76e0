/**
 * The conditional examine text (`SmartHotspot`): an examine hotspot announces
 * itself on a per-hotspot event name, and this listener answers with one of
 * two texts depending on whether the inventory holds a given item.
 */
module SmartExamine {
  import opened Wrappers
  import opened GameData
  import Inv = Inventory
  import Bus = EventBus
  import Hotspots

  datatype Smart = Smart(requiredItemID: string, textWithoutItem: string, textWithItem: string)

  const ListenPrefix: string := "hotspot_examine_"

  /** The event name listened on for a hotspot: the prefix followed by the hotspot's id. */
  function ListenName(hotspotID: string): (name: string)
    ensures |name| == |ListenPrefix| + |hotspotID|
    ensures name[..|ListenPrefix|] == ListenPrefix && name[|ListenPrefix|..] == hotspotID
    ensures name != ""
  {
    ListenPrefix + hotspotID
  }

  /** `Start()`: with a hotspot alongside, subscribe `self` under that hotspot's listen name. */
  function Start(b: Bus.Bus, hotspotID: Option<string>, self: Bus.Listener): (r: Bus.Bus)
    ensures hotspotID.None? ==> r == b
    ensures hotspotID.Some? ==> r == Bus.Subscribe(b, ListenName(hotspotID.value), Some(self))
  {
    match hotspotID
    case None => b
    case Some(id) => Bus.Subscribe(b, ListenName(id), Some(self))
  }

  /** The clue is revealed: an item is required, there is an inventory, and it holds that item. */
  predicate Reveals(s: Smart, inv: Option<Inv.Inventory>) {
    s.requiredItemID != "" && inv.Some? && Inv.HasItem(inv.value, s.requiredItemID)
  }

  /** `OnExamineTriggered`: exactly one dialogue, with the text chosen by whether the clue is revealed. */
  function OnExamineTriggered(s: Smart, inv: Option<Inv.Inventory>): (es: seq<Event>)
    ensures |es| == 1 && es[0].name == ShowDialogue && es[0].payload.Text?
    ensures Reveals(s, inv) ==> es[0].payload.text == s.textWithItem
    ensures !Reveals(s, inv) ==> es[0].payload.text == s.textWithoutItem
    ensures s.requiredItemID == "" || inv.None? ==> es[0].payload.text == s.textWithoutItem
  {
    [Event(ShowDialogue, Text(if Reveals(s, inv) then s.textWithItem else s.textWithoutItem))]
  }

  /**
   * The wiring works: an examine hotspot with no text of its own and the
   * listen name as its success event, clicked after the listener started on a
   * fresh bus, publishes one event that the bus delivers to the listener once.
   */
  lemma ExamineReachesListener(h: Hotspots.Hotspot, w: Hotspots.World, self: Bus.Listener)
    requires h.isActive && h.hotspotType == Examine && h.examineText == ""
    requires h.successEventName == ListenName(h.hotspotID)
    ensures var es := Hotspots.OnClicked(h, w).events;
      |es| == 1 &&
      Bus.Publish(Start(Bus.Empty(), Some(h.hotspotID), self), es[0].name, es[0].payload) ==
        [Bus.Delivery(self, HotspotRef(h.hotspotID))]
  {
  }
}
