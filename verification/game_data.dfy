/**
 * Plain data shared by the whole game: the item record, the hotspot kinds,
 * event payloads and the event names of the bus.
 */
module GameData {

  /** An inventory item. Its identity is `itemID`. */
  datatype ItemData = ItemData(itemID: string, itemName: string, isMiniBug: bool, isUsable: bool)

  /** What a hotspot does when clicked. */
  datatype HotspotType = Pickup | ItemUse | Navigation | Puzzle | Examine

  /** The untyped `object` payload of an event, closed over the shapes the game publishes. */
  datatype Payload =
    | NoData
    | Text(text: string)
    | Item(item: ItemData)
    | Number(n: int)
    | HotspotRef(hotspotID: string)
    | BugCount(collected: int, total: int)

  /** One published event: its name and payload. */
  datatype Event = Event(name: string, payload: Payload)

  // Event names of the bus.
  const ItemCollected: string := "ItemCollected"
  const ItemUsed: string := "ItemUsed"
  const ItemSelected: string := "ItemSelected"
  const ItemDeselected: string := "ItemDeselected"
  const InventoryUpdated: string := "InventoryUpdated"
  const PuzzleSolved: string := "PuzzleSolved"
  const ShowPuzzle: string := "ShowPuzzle"
  const SceneTransitionStart: string := "SceneTransitionStart"
  const SceneTransitionComplete: string := "SceneTransitionComplete"
  const LevelComplete: string := "LevelComplete"
  const HotspotTriggered: string := "HotspotTriggered"
  const MiniBugCollected: string := "MiniBugCollected"
  // Used by the puzzle code but absent from the event-name table; their values are assumed.
  const HidePuzzle: string := "HidePuzzle"
  const PuzzleFailed: string := "PuzzleFailed"
  // Literal names used directly by the publishers.
  const ShowDialogue: string := "ShowDialogue"
  const BugCounterUpdate: string := "BugCounterUpdate"
}
