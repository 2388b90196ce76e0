# Gametopia2026 game core in Dafny

This project models the rule layer of the point-and-click adventure game Gametopia2026 and proves properties about it. The game itself is written in C# for Unity. The modelled rules are:

- the puzzle lifecycle: show, submit, fail, time out, reset and hide;
- the three puzzle kinds (button sequence, code input, colour match), with their answer checks and input buffers;
- the solution-string parsers of a puzzle config;
- the puzzle registry and its single "current" puzzle;
- the inventory and its coupling to the global progress record;
- the per-scene state and the scene controller's name-to-state map;
- the publish/subscribe event bus;
- hotspots and the hotspot manager;
- level completion;
- the conditional examine text;
- the one-shot object activation.

Every engine singleton becomes an explicit value. Every operation is a pure function from the old state to the new state. Each operation also returns the list of events it publishes, in order, as a sequence of `GameData.Event`. Reacting to an event is a separate step of the listener's owner. For example, `PuzzleRegistry.OnHidePuzzleEvent` is the registry's reaction to the `HidePuzzle` event.

Modules, one per source class:

| module | file | models |
|---|---|---|
| `Wrappers` | wrappers.dfy | `Option`, used for C# `null` |
| `GameData` | game_data.dfy | `ItemData`, `HotspotType`, event payloads and event names |
| `IdLists` | id_lists.dfy | lists used with set semantics, and `List.Remove` |
| `Text` | text.dfy | the .NET string services the code relies on: `Split`, `Trim`, `int.Parse`, ordinal case-insensitive comparison |
| `GameStateData` | game_state.dfy | `GameStateData` |
| `SceneStates` | scene_state.dfy | `SceneState` |
| `SceneControl` | scene_controller.dfy | `SceneController` |
| `EventBus` | event_bus.dfy | `EventManager` |
| `Inventory` | inventory.dfy | `InventorySystem` |
| `PuzzleConfig` | puzzle_config.dfy | `PuzzleConfig` |
| `PuzzleKinds` | puzzle_kinds.dfy | the answer checks and buffers of the three puzzle subclasses |
| `Puzzles` | puzzle_base.dfy | `PuzzleBase` |
| `PuzzleInput` | puzzle_input.dfy | the button, submit and clear handlers of the three subclasses |
| `PuzzleRegistry` | puzzle_system.dfy | `PuzzleSystem` |
| `Hotspots` | hotspot_component.dfy | `HotspotComponent` |
| `HotspotRegistry` | hotspot_manager.dfy | `HotspotManager` |
| `Levels` | level_manager.dfy | `LevelManager` |
| `SmartExamine` | smart_hotspot.dfy | `SmartHotspot` |
| `Activation` | activate_on_event.dfy | `ActivateOnEvent` |

Modelling choices:

- **Item identity.** Items are identified by `itemID`. The C# code compares `ItemData` assets by reference, and the model takes two assets with the same id as the same item.
- **Hotspots and scene objects.** These are handles (`nat`) into a map of objects. A registered handle that is missing from the map is a destroyed object, which Unity compares equal to `null`. Whether a hotspot's bounds contain the pointer is given as a set of handles; the float arithmetic of the bounds is not modelled.
- **Listeners.** Event listeners are opaque `nat` ids. `EventBus.Publish` returns the deliveries it makes, in registration order.
- **Removing a listener twice registered.** `UnityEvent.RemoveListener` does not document what happens to a listener registered twice. `EventBus.Unsubscribe` therefore takes a `RemovalPolicy` parameter: remove the first occurrence, or remove every occurrence.
- **Missing event names.** `PuzzleBase` publishes `GameEvents.HidePuzzle` and `GameEvents.PuzzleFailed`, but `Events/GameEvents.cs` does not define them. The model assumes their values are `"HidePuzzle"` and `"PuzzleFailed"`.
- **Whitespace and number parsing.** `Trim` removes every character that `Char.IsWhiteSpace` accepts: U+0009 to U+000D, U+0020, U+0085, U+00A0, U+1680, U+2000 to U+200A, U+2028, U+2029, U+202F, U+205F and U+3000. `int.Parse` and `int.TryParse` with the default number style skip only the six ASCII white-space characters U+0009 to U+000D and U+0020 around an optional sign and decimal digits within the 32-bit range. `OrdinalIgnoreCase` is ASCII case folding.
- **The code field.** The code field's content type is `IntegerNumber` (CodeInputPuzzle.cs:106), so the player can type only decimal digits and a leading minus sign; `PuzzleConfig.IntegerFieldText` states that shape.
- **Scene loading.** The asynchronous scene load is split into the moment it starts (`SceneControl.BeginLoad`) and the moment it completes (`SceneControl.FinishLoad`), by which time the engine has made the loaded scene the active one. The current time is passed in as a string.
- **Delays.** The delayed clearing of a puzzle buffer after a failure is taken as immediate. The delayed hide 1.5 s after a solve is the separate step `Puzzles.HidePuzzle`.

## Model

| member | source | states |
|---|---|---|
| GameStateData.NewGame | Gametopia2026/Assets/Scripts/Core/GameStateData.cs:39-74 | a new game is at level 1, in scene "MainMenu", with no collected or solved ids, no bugs, no play time and an empty save time; both id lists are duplicate-free |
| GameStateData.HasItem | Gametopia2026/Assets/Scripts/Core/GameStateData.cs:151-154 | true exactly when some position of the collected list holds the id |
| GameStateData.IsPuzzleSolved | Gametopia2026/Assets/Scripts/Core/GameStateData.cs:161-164 | true exactly when some position of the solved list holds the id |
| GameStateData.Reset | Gametopia2026/Assets/Scripts/Core/GameStateData.cs:132-144 | resetting any record gives the new-game record, in which no item is held and no puzzle is solved |
| GameStateData.AddCollectedItem | Gametopia2026/Assets/Scripts/Core/GameStateData.cs:170-176 | afterwards the item is held; the held ids are exactly the old ones plus this one; an id already held changes nothing; duplicate-freedom is kept; only the collected list changes |
| GameStateData.MarkPuzzleSolved | Gametopia2026/Assets/Scripts/Core/GameStateData.cs:182-188 | the same for the solved ids: solved afterwards, exactly one id added, idempotent guard, duplicate-freedom kept, only that list changes |
| GameStateData.RemoveCollectedItem | Gametopia2026/Assets/Scripts/Inventory/InventorySystem.cs:132 | removing an id that is not held changes nothing; on a duplicate-free record exactly that id leaves the collected ids; no other field changes |
| GameStateData.AddCollectedItemIdempotent | Gametopia2026/Assets/Scripts/Core/GameStateData.cs:170-176 | adding the same item id twice equals adding it once |
| GameStateData.MarkPuzzleSolvedIdempotent | Gametopia2026/Assets/Scripts/Core/GameStateData.cs:182-188 | marking the same puzzle solved twice equals marking it once |
| SceneStates.NewSceneState | Gametopia2026/Assets/Scripts/Scene/SceneState.cs:54-59 | a new scene state carries its name, is unvisited, has no visit time and no collected, solved or disabled ids |
| SceneStates.IsItemCollected | Gametopia2026/Assets/Scripts/Scene/SceneState.cs:106-109 | true exactly when some position of the scene's collected list holds the id |
| SceneStates.IsPuzzleSolved | Gametopia2026/Assets/Scripts/Scene/SceneState.cs:116-119 | true exactly when some position of the scene's solved list holds the id |
| SceneStates.IsHotspotDisabled | Gametopia2026/Assets/Scripts/Scene/SceneState.cs:126-129 | true exactly when some position of the scene's disabled list holds the id |
| SceneStates.MarkItemCollected | Gametopia2026/Assets/Scripts/Scene/SceneState.cs:69-75 | the collected ids become the old ones plus this one; an id already present changes nothing; duplicate-freedom is kept; only that list changes |
| SceneStates.MarkPuzzleSolved | Gametopia2026/Assets/Scripts/Scene/SceneState.cs:81-87 | the same for the scene's solved puzzles |
| SceneStates.DisableHotspot | Gametopia2026/Assets/Scripts/Scene/SceneState.cs:93-99 | the same for the scene's disabled hotspots |
| SceneStates.MarkVisited | Gametopia2026/Assets/Scripts/Scene/SceneState.cs:134-138 | afterwards the scene is visited with the given time; the name and all three id lists are unchanged |
| SceneStates.MarksKeepVisited | Gametopia2026/Assets/Scripts/Scene/SceneState.cs:69-138 | none of the mark operations changes the visited flag, and MarkVisited always sets it, so the flag never returns to false |
| SceneControl.GetSceneState | Gametopia2026/Assets/Scripts/Scene/SceneController.cs:247-260 | the lookup returns the stored entry, and then the controller is unchanged; for a missing key it inserts and returns a fresh state named after the key; an empty name looks up the active scene; keying by scene name is kept |
| SceneControl.GetSceneStateStable | Gametopia2026/Assets/Scripts/Scene/SceneController.cs:254-259 | a second lookup of the same name returns the entry the first one created or found, and changes nothing |
| SceneControl.DisableHotspotInScene | Gametopia2026/Assets/Scripts/Interaction/HotspotComponent.cs:488-489 | the scene's entry lists the hotspot as disabled afterwards, and every other scene's entry is unchanged |
| SceneControl.ClearSceneState | Gametopia2026/Assets/Scripts/Scene/SceneController.cs:266-273 | exactly that key leaves the map; every other entry keeps its value |
| SceneControl.ClearThenGetIsFresh | Gametopia2026/Assets/Scripts/Scene/SceneController.cs:247-273 | after clearing a named scene, looking it up yields a fresh, unvisited state |
| SceneControl.SaveCurrentSceneState | Gametopia2026/Assets/Scripts/Scene/SceneController.cs:207-218 | without a current scene nothing changes; otherwise the current scene gets an entry, and existing entries are untouched |
| SceneControl.BeginLoad | Gametopia2026/Assets/Scripts/Scene/SceneController.cs:107-115 | a started load marks the controller as transitioning and publishes exactly SceneTransitionStart with the scene name; the current and active scene, the fade canvas and every existing entry are kept; the only key that can be added is the current scene's, when it is non-empty; keying by scene name is kept |
| SceneControl.FinishLoad | Gametopia2026/Assets/Scripts/Scene/SceneController.cs:127-149 | a finished load makes the scene both current and active, ends the transition and publishes exactly SceneTransitionComplete; the scene's entry is visited at the given time, an existing entry keeping its name and id lists and a missing one created fresh; the keys become the old keys plus this scene, and every other entry and the fade canvas are unchanged |
| SceneControl.LoadScene | Gametopia2026/Assets/Scripts/Scene/SceneController.cs:69-84 | an empty name, or a request during a transition, changes nothing and publishes nothing (if and only if); otherwise the load starts |
| SceneControl.TransitionToScene | Gametopia2026/Assets/Scripts/Scene/SceneController.cs:159-180 | with a fade canvas the load starts without any in-progress check; without one it is the guarded LoadScene |
| SceneControl.TransitionIgnoresProgress | Gametopia2026/Assets/Scripts/Scene/SceneController.cs:159-168 | while a transition runs, a transition with a fade canvas still starts a load, whereas LoadScene refuses |
| SceneControl.LoadThenFinish | Gametopia2026/Assets/Scripts/Scene/SceneController.cs:107-152 | a load followed by its completion leaves the scene current and active, visited at the given time with its other fields kept if it had an entry, and no transition running; the old current scene, when it has a name, has an entry; the keys are the old ones plus the new scene and the named old current scene; every other entry is unchanged; the events are exactly the start and the complete, in that order |
| SceneControl.SceneList | Gametopia2026/Assets/Scripts/Scene/SceneController.cs:323-326 | the saved list holds the map's value for each key, in key order |
| SceneControl.Rebuild | Gametopia2026/Assets/Scripts/Scene/SceneController.cs:344-349 | the rebuilt map is keyed by scene name, has an entry for every listed name, and holds only listed states |
| SceneControl.RebuildLastWins | Gametopia2026/Assets/Scripts/Scene/SceneController.cs:346-349 | when several listed states share a name, the last one is the one kept |
| SceneControl.RebuildSceneList | Gametopia2026/Assets/Scripts/Scene/SceneController.cs:317-349 | saving a map whose keys are its entries' names and rebuilding it gives the same map back |
| SceneControl.DeserializeSceneStates | Gametopia2026/Assets/Scripts/Scene/SceneController.cs:335-357 | a missing list changes nothing; otherwise the map becomes the rebuilt one and nothing else changes |
| EventBus.Empty | Gametopia2026/Assets/Scripts/Core/EventManager.cs:41 | a bus with no entries reports no subscribers for any name |
| EventBus.HasSubscribers | Gametopia2026/Assets/Scripts/Core/EventManager.cs:196-199 | when it answers false, a publication under that name delivers nothing, whatever the payload |
| EventBus.Subscribe | Gametopia2026/Assets/Scripts/Core/EventManager.cs:77-104 | an empty name or a null listener changes nothing; otherwise the entry is created if missing and the listener is appended, duplicates included; other names are untouched |
| EventBus.RemoveListener | Gametopia2026/Assets/Scripts/Core/EventManager.cs:116-125 | under the first-occurrence policy exactly one registration goes; under the every-occurrence policy all of them go; other listeners keep their counts |
| EventBus.Unsubscribe | Gametopia2026/Assets/Scripts/Core/EventManager.cs:111-130 | an empty or unknown name, or a null listener, changes nothing; no entry is ever removed; only the named entry's list changes |
| EventBus.Publish | Gametopia2026/Assets/Scripts/Core/EventManager.cs:137-159 | an empty or never-subscribed name delivers nothing; otherwise each registration of the name gets one delivery, in order, with the given payload |
| EventBus.ClearEvent | Gametopia2026/Assets/Scripts/Core/EventManager.cs:165-174 | the named entry keeps its key and loses its listeners; other entries are unchanged |
| EventBus.ClearAllEvents | Gametopia2026/Assets/Scripts/Core/EventManager.cs:179-189 | afterwards no name has subscribers and every publication delivers nothing |
| EventBus.DeliveriesCountRegistrations | Gametopia2026/Assets/Scripts/Core/EventManager.cs:151-154 | a publication reaches a listener exactly as many times as that listener is registered under the name |
| EventBus.SubscribeAddsDelivery | Gametopia2026/Assets/Scripts/Core/EventManager.cs:92-100 | each further subscription of the same listener adds exactly one delivery per publication |
| EventBus.UnsubscribeKeepsEntry | Gametopia2026/Assets/Scripts/Core/EventManager.cs:116-125 | after the last listener leaves, HasSubscribers still holds although nothing is delivered |
| EventBus.HasSubscribersAfterClear | Gametopia2026/Assets/Scripts/Core/EventManager.cs:196-199 | HasSubscribers as written: it holds after ClearEvent, with no listener left (see Findings) |
| EventBus.HasListenersIffDelivers | Gametopia2026/Assets/Scripts/Core/EventManager.cs:196-199 | HasListeners, the documented meaning "exists and has listeners", holds exactly when a publication delivers something |
| Inventory.NewInventory | Gametopia2026/Assets/Scripts/Inventory/InventorySystem.cs:20-30 | a new inventory has no items, no selection and 20 slots |
| Inventory.HasItem | Gametopia2026/Assets/Scripts/Inventory/InventorySystem.cs:147-150 | true exactly when some held item carries the id |
| Inventory.IsInventoryFull | Gametopia2026/Assets/Scripts/Inventory/InventorySystem.cs:243-246 | when not full there is room for one more item; within the slot bound, full means every slot is taken |
| Inventory.CanUseItem | Gametopia2026/Assets/Scripts/Inventory/InventorySystem.cs:231-237 | a null item is never usable; otherwise the item's own usable flag decides, both ways |
| Inventory.RemoveById | Gametopia2026/Assets/Scripts/Inventory/InventorySystem.cs:129 | an absent id leaves the list as it is; otherwise exactly the first item with the id is cut out and the rest keep their order |
| Inventory.AddItem | Gametopia2026/Assets/Scripts/Inventory/InventorySystem.cs:59-102 | an add is refused, with nothing changed and nothing published, exactly when the item is null, the inventory is full or the id is held. Otherwise the item is appended at the end; its id joins the collected ids; the bug counter rises by one exactly for a MiniBug; the events are ItemCollected and InventoryUpdated, plus MiniBugCollected for a MiniBug; the bound and duplicate-freedom are kept |
| Inventory.AppendKeepsValid | Gametopia2026/Assets/Scripts/Inventory/InventorySystem.cs:68-85 | appending an item that is not held to a non-full inventory keeps the slot bound, the unique ids and the coupling to the collected ids |
| Inventory.RemoveByIdIds | Gametopia2026/Assets/Scripts/Inventory/InventorySystem.cs:129-132 | dropping the first item with an id drops the first occurrence of that id from the id list |
| Inventory.RemoveByIdUnique | Gametopia2026/Assets/Scripts/Inventory/InventorySystem.cs:125 | on a list with unique ids, removal keeps the ids unique and removes exactly that id |
| Inventory.RemoveItem | Gametopia2026/Assets/Scripts/Inventory/InventorySystem.cs:108-140 | removing a null or unheld item changes nothing; otherwise a selected item is deselected first, the item leaves the list and its id leaves the collected ids, with ItemUsed and InventoryUpdated published; validity is kept |
| Inventory.DeselectEvents | Gametopia2026/Assets/Scripts/Inventory/InventorySystem.cs:123-126 | an ItemDeselected event is published before the removal exactly when the removed item is the selected one |
| Inventory.RemovePreservesValid | Gametopia2026/Assets/Scripts/Inventory/InventorySystem.cs:108-140 | removing an id from both the item list and the collected ids, and clearing a selection of it, keeps the inventory valid and leaves the id unheld |
| Inventory.SelectItem | Gametopia2026/Assets/Scripts/Inventory/InventorySystem.cs:170-192 | only a held item can be selected, with ItemSelected published; otherwise nothing changes; a selection always names a held item |
| Inventory.DeselectItem | Gametopia2026/Assets/Scripts/Inventory/InventorySystem.cs:197-210 | with nothing selected it is a no-op; otherwise the selection clears and ItemDeselected is published with the previous item; the items are untouched |
| Inventory.ClearInventory | Gametopia2026/Assets/Scripts/Inventory/InventorySystem.cs:264-273 | no items and no selection remain and InventoryUpdated is published, while the game state, collected ids included, is left untouched |
| Inventory.AddThenRemove | Gametopia2026/Assets/Scripts/Inventory/InventorySystem.cs:59-140 | on any valid inventory, whatever is selected, removing an item that was just added gives back the original inventory |
| Inventory.RemoveByIdLast | Gametopia2026/Assets/Scripts/Inventory/InventorySystem.cs:82-125 | removing the id of an item just appended, with that id not held before, gives back the original list |
| PuzzleConfig.AllPresent | Gametopia2026/Assets/Scripts/Puzzle/PuzzleConfig.cs:112-126 | a list of optional parses succeeds exactly when every part parsed, and then it holds every parse in order; there is no partial result |
| PuzzleConfig.ParseEach | Gametopia2026/Assets/Scripts/Puzzle/PuzzleConfig.cs:114-120 | one reading per part, and reading i is `int.Parse` of part i; the parts it is given are already trimmed |
| PuzzleConfig.ParseAllTrimmed | Gametopia2026/Assets/Scripts/Puzzle/PuzzleConfig.cs:114-120 | when every part reads, there is one number per part, and number i is `int.Parse(parts[i].Trim())`, with the full `Char.IsWhiteSpace` set trimmed |
| PuzzleConfig.GetButtonSequenceSolution | Gametopia2026/Assets/Scripts/Puzzle/PuzzleConfig.cs:107-127 | an empty solution gives the empty sequence, and so does any unparsable part; on success there are (commas + 1) numbers, and number i is `int.Parse` of part i after `String.Trim`, which removes every `Char.IsWhiteSpace` character |
| PuzzleConfig.GetCodeInputSolution | Gametopia2026/Assets/Scripts/Puzzle/PuzzleConfig.cs:132-135 | the code solution is returned as stored, untrimmed |
| PuzzleConfig.TrimAll | Gametopia2026/Assets/Scripts/Puzzle/PuzzleConfig.cs:146-150 | each part is replaced by its trimmed form and none is dropped |
| PuzzleConfig.GetColorMatchSolution | Gametopia2026/Assets/Scripts/Puzzle/PuzzleConfig.cs:141-152 | an empty solution gives no names; otherwise there are (commas + 1) names, name i is trimmed part i, and no name has surrounding white space or a comma |
| PuzzleConfig.OnValidate | Gametopia2026/Assets/Scripts/Puzzle/PuzzleConfig.cs:157-203 | the id becomes the asset name. A warning is raised, if and only if, per type: for a button sequence, some part does not parse once `String.Trim` has removed its white space; for a code, the solution does not parse as an integer; for colours, there is no comma. An empty solution never warns |
| PuzzleConfig.NoBreakSpaceButtonSolution | Gametopia2026/Assets/Scripts/Puzzle/PuzzleConfig.cs:114-120 | the button solution "\u00A01,2" reads as [1, 2], and the editor's check at lines 171-178 raises no warning, because the no-break space is trimmed before the parse |
| PuzzleConfig.OnValidateIdempotent | Gametopia2026/Assets/Scripts/Puzzle/PuzzleConfig.cs:160-163 | a second validation with the same asset name changes nothing |
| PuzzleConfig.UsableCodeSolution | Gametopia2026/Assets/Scripts/Puzzle/PuzzleConfig.cs:183-191 | the corrected editor check for a code: a usable solution is text the `IntegerNumber` code field can produce, so it has no surrounding white space and no plus sign, and a non-empty one parses as an integer |
| PuzzleConfig.UsableCodeSolutionValidates | Gametopia2026/Assets/Scripts/Puzzle/PuzzleConfig.cs:183-191 | every code the corrected check accepts passes the editor's check without a warning |
| PuzzleConfig.PaddedCodeValidates | Gametopia2026/Assets/Scripts/Puzzle/PuzzleConfig.cs:187 | the editor accepts the code " 42 " without a warning |
| PuzzleConfig.FormatListParses | Gametopia2026/Assets/Scripts/Puzzle/PuzzleConfig.cs:114-120 | parsing each of the decimal forms of a list of 32-bit numbers succeeds for every part and gives back the list |
| PuzzleConfig.ButtonSolutionRoundTrip | Gametopia2026/Assets/Scripts/Puzzle/PuzzleConfig.cs:107-127 | writing a non-empty list of 32-bit numbers as comma-separated decimals and reading it back gives the list |
| PuzzleConfig.ColorSolutionRoundTrip | Gametopia2026/Assets/Scripts/Puzzle/PuzzleConfig.cs:141-152 | joining trimmed, comma-free colour names with commas and reading them back gives the names |
| Text.Split | Gametopia2026/Assets/Scripts/Puzzle/PuzzleConfig.cs:114 | splitting gives (separators + 1) pieces, empty pieces kept, none holding the separator |
| Text.JoinSplit | Gametopia2026/Assets/Scripts/Puzzle/PuzzleConfig.cs:114 | joining the pieces of a split with the separator gives the original string |
| Text.SplitJoin | Gametopia2026/Assets/Scripts/Puzzle/PuzzleConfig.cs:145 | splitting a join of one or more separator-free pieces gives the pieces back |
| Text.Trim | Gametopia2026/Assets/Scripts/Puzzle/PuzzleConfig.cs:149 | the result is a contiguous piece of the input with only `Char.IsWhiteSpace` characters outside it, no-break and other Unicode spaces included, and has none at either end; an already trimmed string is unchanged; the result is empty exactly when the input is all white space |
| Text.IntParse | Gametopia2026/Assets/Scripts/Puzzle/PuzzleConfig.cs:118 | a successful parse lies in the 32-bit range; on text with no ASCII white space at either end, and so on any trimmed text, it is the strict sign-and-digits parse |
| Text.TrimPadded | Gametopia2026/Assets/Scripts/Puzzle/CodeInputPuzzle.cs:179 | white space added on either side of a trimmed string, the empty string included, is exactly what Trim removes |
| Text.IntParsePadded | Gametopia2026/Assets/Scripts/Puzzle/PuzzleConfig.cs:187 | ASCII white space on either side of a literal does not change what the lenient integer parse reads |
| Text.NoBreakSpaceOnlyTrimmed | Gametopia2026/Assets/Scripts/Puzzle/PuzzleConfig.cs:118 | a no-break space is white space to `Trim` but not to `int.Parse`: "\u00A042" parses as 42 after trimming and does not parse without it |
| Text.ParseFormat | Gametopia2026/Assets/Scripts/Puzzle/PuzzleConfig.cs:118 | the decimal form of a 32-bit number parses back to it |
| Text.EqualsIgnoreCaseLowered | Gametopia2026/Assets/Scripts/Puzzle/ColorMatchPuzzle.cs:239 | two strings are equal ignoring case exactly when their lower-cased forms are equal |
| PuzzleKinds.SameInts | Gametopia2026/Assets/Scripts/Puzzle/ButtonSequencePuzzle.cs:189-198 | the element-by-element loop accepts exactly equal sequences |
| PuzzleKinds.SameIgnoringCase | Gametopia2026/Assets/Scripts/Puzzle/ColorMatchPuzzle.cs:237-246 | the loop accepts exactly when every pair is equal ignoring case |
| PuzzleKinds.ValidatePlayerInput | Gametopia2026/Assets/Scripts/Puzzle/ButtonSequencePuzzle.cs:173-199 | a button puzzle accepts exactly an int sequence equal to the solution; a code puzzle accepts exactly a string equal to the code, case-sensitively; a colour puzzle accepts exactly a string sequence of the solution's length that matches pairwise ignoring case; an answer of the wrong shape is rejected |
| PuzzleKinds.ColorCheckIsLoweredEquality | Gametopia2026/Assets/Scripts/Puzzle/ColorMatchPuzzle.cs:221-247 | the colour check is equality of lengths and of lower-cased names |
| PuzzleKinds.ColorCheckAcceptsSolution | Gametopia2026/Assets/Scripts/Puzzle/ColorMatchPuzzle.cs:237-246 | the solution itself is always accepted |
| PuzzleKinds.SetupPuzzleUI | Gametopia2026/Assets/Scripts/Puzzle/ButtonSequencePuzzle.cs:97-121 | setup keeps the kind, loads the parsed solution, and empties the input buffer unless the solution is empty; a missing code field stays missing |
| PuzzleKinds.ResetPuzzleState | Gametopia2026/Assets/Scripts/Puzzle/ButtonSequencePuzzle.cs:201-207 | the input buffer is emptied and the solution kept |
| Puzzles.NewPuzzle | Gametopia2026/Assets/Scripts/Puzzle/PuzzleBase.cs:52-81 | a new puzzle is inactive, unsolved, with no attempts and no timer |
| Puzzles.ShowPuzzle | Gametopia2026/Assets/Scripts/Puzzle/PuzzleBase.cs:159-237 | with no config, or an id already solved in the game state, nothing changes; otherwise the puzzle is active, unsolved, has 0 attempts and the kind's setup; the timer starts exactly when there is a time limit |
| Puzzles.HidePuzzle | Gametopia2026/Assets/Scripts/Puzzle/PuzzleBase.cs:243-279 | from any state: inactive, timer off, everything else (solved included) unchanged; the hide is announced with the id when there is a config |
| Puzzles.ResetPuzzle | Gametopia2026/Assets/Scripts/Puzzle/PuzzleBase.cs:313-327 | only the attempts (to 0), the timer (restarted under a time limit) and the kind's buffer change; the solution is kept |
| Puzzles.OnPuzzleSolved | Gametopia2026/Assets/Scripts/Puzzle/PuzzleBase.cs:362-400 | solved, inactive, timer off, the id in the solved set; the reward goes through AddItem when there is one and an inventory; PuzzleSolved is published, then the success event if one is set |
| Puzzles.BaseFailed | Gametopia2026/Assets/Scripts/Puzzle/PuzzleBase.cs:405-426 | the attempt count goes up by one, and the puzzle is reset exactly when there is a limit and the count reaches it; PuzzleFailed is published |
| Puzzles.OnPuzzleFailed | Gametopia2026/Assets/Scripts/Puzzle/ButtonSequencePuzzle.cs:314-331 | the base failure plus the subclass's buffer clear. Attempts become 0 exactly at the limit and are otherwise one more; with a limit they stay in [0, limit); with no limit they only grow; the flags and the solution are unchanged |
| Puzzles.OnTimerExpired | Gametopia2026/Assets/Scripts/Puzzle/PuzzleBase.cs:440-449 | expiry stops the timer and then behaves exactly like a failed submission |
| Puzzles.SubmitAnswer | Gametopia2026/Assets/Scripts/Puzzle/PuzzleBase.cs:286-307 | on an inactive or solved puzzle nothing changes; a valid answer solves it and records the id; an invalid one counts as a failure and leaves it active and unsolved |
| Puzzles.Update | Gametopia2026/Assets/Scripts/Puzzle/PuzzleBase.cs:129-149 | Escape hides an active, unsolved puzzle that allows it; with no timer running and no Escape, nothing changes; the solved flag never changes |
| Puzzles.FailuresResetAtLimit | Gametopia2026/Assets/Scripts/Puzzle/PuzzleBase.cs:407-419 | with a limit, failures count up and reset to 0 exactly when the limit is reached |
| Puzzles.FailuresWrapAtLimit | Gametopia2026/Assets/Scripts/Puzzle/PuzzleBase.cs:407-419 | from 0 attempts, n failures leave n mod limit attempts |
| Puzzles.FailuresUnlimited | Gametopia2026/Assets/Scripts/Puzzle/PuzzleBase.cs:407-419 | with limit 0, n failures add exactly n attempts and never reset |
| Puzzles.SolvedIsFinal | Gametopia2026/Assets/Scripts/Puzzle/PuzzleBase.cs:170-175 | after a correct answer, showing the puzzle again does nothing and every later submission is ignored |
| PuzzleInput.OnButtonClicked | Gametopia2026/Assets/Scripts/Puzzle/ButtonSequencePuzzle.cs:130-152 | clicks on an inactive or solved puzzle are ignored; otherwise the index is appended, and the buffer is submitted as soon as its length reaches the solution's |
| PuzzleInput.ClickingSolutionSolves | Gametopia2026/Assets/Scripts/Puzzle/ButtonSequencePuzzle.cs:138-151 | from an empty buffer, clicking the solution's indices in order solves the puzzle |
| PuzzleInput.ColorClickingSolutionSolves | Gametopia2026/Assets/Scripts/Puzzle/ColorMatchPuzzle.cs:173-200 | from an empty colour buffer, clicking buttons whose names match the solution's names in order, up to case, solves the puzzle |
| PuzzleInput.ClearButtonSequence | Gametopia2026/Assets/Scripts/Puzzle/ButtonSequencePuzzle.cs:157-167 | an ignored puzzle is unchanged; otherwise only the buffer empties |
| PuzzleInput.OnSubmitClicked | Gametopia2026/Assets/Scripts/Puzzle/CodeInputPuzzle.cs:171-191 | ignored while inactive or solved; the typed text is trimmed, an empty result is never submitted, and anything else is submitted as a string |
| PuzzleInput.PaddedCodeNeverSolves | Gametopia2026/Assets/Scripts/Puzzle/CodeInputPuzzle.cs:179-185 | a stored code with surrounding white space can never be matched through the submit button, whatever is typed |
| PuzzleInput.TypedSolutionSolves | Gametopia2026/Assets/Scripts/Puzzle/CodeInputPuzzle.cs:230-244 | a trimmed, non-empty code typed with any white-space padding solves the puzzle |
| PuzzleInput.PaddedCodeValidatesButNeverSolves | Gametopia2026/Assets/Scripts/Puzzle/CodeInputPuzzle.cs:179 | with the code " 42 ", the editor raises no warning, yet no typed text ever solves the puzzle (see Findings) |
| PuzzleInput.UsableCodeSolves | Gametopia2026/Assets/Scripts/Puzzle/CodeInputPuzzle.cs:179-185 | a non-empty code that passes the corrected check can be typed into the code field, and of all the text the field accepts, exactly that code solves the puzzle |
| PuzzleInput.FieldTextTrimmed | Gametopia2026/Assets/Scripts/Puzzle/CodeInputPuzzle.cs:179 | text the code field accepts has no white space to trim, so it is submitted as typed |
| PuzzleInput.TypedCodeSolvesIff | Gametopia2026/Assets/Scripts/Puzzle/CodeInputPuzzle.cs:179-185 | typed text that trimming leaves unchanged solves a non-empty code exactly when it equals the code |
| PuzzleInput.OnClearClicked | Gametopia2026/Assets/Scripts/Puzzle/CodeInputPuzzle.cs:196-212 | ignored while inactive or solved; otherwise only the typed text empties |
| PuzzleInput.OnColorButtonClicked | Gametopia2026/Assets/Scripts/Puzzle/ColorMatchPuzzle.cs:173-200 | ignored while inactive or solved or for an out-of-range index; otherwise the colour name is appended and the buffer auto-submits at the solution's length |
| PuzzleInput.ClearColorSequence | Gametopia2026/Assets/Scripts/Puzzle/ColorMatchPuzzle.cs:205-215 | an ignored puzzle is unchanged; otherwise only the colour buffer empties |
| PuzzleRegistry.FirstWithId | Gametopia2026/Assets/Scripts/Puzzle/PuzzleSystem.cs:150-170 | the reference for registration: the first configured candidate carrying an id, and none exactly when no candidate carries it |
| PuzzleRegistry.RegisterFrom | Gametopia2026/Assets/Scripts/Puzzle/PuzzleSystem.cs:150-170 | the registration loop keeps existing entries and otherwise stores, for each id, the first configured candidate carrying it |
| PuzzleRegistry.RegisterPuzzles | Gametopia2026/Assets/Scripts/Puzzle/PuzzleSystem.cs:140-172 | a missing list registers nothing; otherwise the registry holds exactly the ids of configured candidates, each mapped to the first candidate carrying it, so null and config-less entries and later duplicates are skipped |
| PuzzleRegistry.FirstRegistrationWins | Gametopia2026/Assets/Scripts/Puzzle/PuzzleSystem.cs:161-169 | the first configured puzzle in the list is registered under its id, whatever puzzles with the same id follow it |
| PuzzleRegistry.Initial | Gametopia2026/Assets/Scripts/Puzzle/PuzzleSystem.cs:140-172 | the registry starts well-formed, with each puzzle under its own id and no current puzzle |
| PuzzleRegistry.HideActiveCurrent | Gametopia2026/Assets/Scripts/Puzzle/PuzzleSystem.cs:200-205 | only an active current puzzle is hidden, and `current` is left alone |
| PuzzleRegistry.ShowPuzzle | Gametopia2026/Assets/Scripts/Puzzle/PuzzleSystem.cs:183-210 | an empty or unknown id changes nothing; otherwise an active current puzzle is hidden, the requested one becomes current and is shown; no puzzle other than the current one is ever active |
| PuzzleRegistry.HideCurrentPuzzle | Gametopia2026/Assets/Scripts/Puzzle/PuzzleSystem.cs:215-223 | only an active current puzzle is hidden, and only then is `current` cleared |
| PuzzleRegistry.HidePuzzle | Gametopia2026/Assets/Scripts/Puzzle/PuzzleSystem.cs:229-257 | it acts only on a registered, active puzzle, and it clears `current` only if that puzzle was current |
| PuzzleRegistry.ResetPuzzle | Gametopia2026/Assets/Scripts/Puzzle/PuzzleSystem.cs:284-294 | a registered puzzle is reset; an unknown id changes nothing |
| PuzzleRegistry.OnShowPuzzleEvent | Gametopia2026/Assets/Scripts/Puzzle/PuzzleSystem.cs:304-314 | a string payload shows that puzzle; any other payload is ignored |
| PuzzleRegistry.OnHidePuzzleEvent | Gametopia2026/Assets/Scripts/Puzzle/PuzzleSystem.cs:319-330 | a string payload hides that puzzle; any other payload hides the current one |
| PuzzleRegistry.EchoOfHideIsNoOp | Gametopia2026/Assets/Scripts/Puzzle/PuzzleSystem.cs:247-256 | the HidePuzzle event that a hide publishes, when it comes back to the registry, changes nothing and publishes nothing |
| PuzzleRegistry.EchoOfShowIsNoOp | Gametopia2026/Assets/Scripts/Puzzle/PuzzleBase.cs:277 | the same holds for the hide that showing another puzzle performs |
| PuzzleRegistry.SelfHideKeepsCurrent | Gametopia2026/Assets/Scripts/Puzzle/PuzzleSystem.cs:247-256 | a puzzle that hides itself stays the registry's current puzzle, because its announcement arrives when it is already inactive |
| PuzzleRegistry.SolvedNotReentered | Gametopia2026/Assets/Scripts/Puzzle/PuzzleSystem.cs:201-209 | showing a puzzle the game lists as solved never leaves it active |
| Hotspots.SetActive | Gametopia2026/Assets/Scripts/Interaction/HotspotComponent.cs:664-673 | the active flag takes the given value, and deactivation also clears the hover flag; nothing else changes |
| Hotspots.OnHoverEnter | Gametopia2026/Assets/Scripts/Interaction/HotspotComponent.cs:340-355 | an inactive hotspot ignores the pointer; an active one becomes hovered |
| Hotspots.OnHoverExit | Gametopia2026/Assets/Scripts/Interaction/HotspotComponent.cs:360-369 | the hover flag clears whatever the active flag says |
| Hotspots.DisableInScene | Gametopia2026/Assets/Scripts/Interaction/HotspotComponent.cs:536-540 | with a scene controller, the current scene's state lists the hotspot as disabled afterwards and nothing else in the controller changes |
| Hotspots.CheckSceneState | Gametopia2026/Assets/Scripts/Interaction/HotspotComponent.cs:271-286 | a hotspot that the current scene lists as disabled is deactivated at start; without a scene controller nothing changes |
| Hotspots.ExecutePickupAction | Gametopia2026/Assets/Scripts/Interaction/HotspotComponent.cs:464-508 | nothing happens without an item or an inventory, or when the add is refused. A successful pickup always records the hotspot as disabled in the scene, but deactivates it only when disableAfterPickup is set. The inventory stays valid |
| Hotspots.SuccessEvents | Gametopia2026/Assets/Scripts/Interaction/HotspotComponent.cs:530-533 | the success event is published, with the hotspot, exactly when its name is non-empty |
| Hotspots.ExecuteItemUseAction | Gametopia2026/Assets/Scripts/Interaction/HotspotComponent.cs:514-544 | a consumed item is removed through RemoveItem; an item that is not consumed is only deselected. The hotspot is recorded as disabled in the scene and deactivated. The inventory stays valid |
| Hotspots.TryUseItem | Gametopia2026/Assets/Scripts/Interaction/HotspotComponent.cs:431-455 | the item is accepted exactly when the hotspot is active, of item-use type, and the item and the requirement are present with the same id; a refusal changes nothing |
| Hotspots.ExecuteNavigationAction | Gametopia2026/Assets/Scripts/Interaction/HotspotComponent.cs:549-567 | only the scene controller can change, the hotspot and the rest of the world are kept, and validity is kept. Without a target scene or a controller nothing happens. Otherwise the controller keeps its current scene and its entries, and SceneTransitionStart is published exactly when there is a fade canvas or no transition is running, in which case a transition is then running; without a fade canvas during a transition nothing happens |
| Hotspots.NavigationClickTwice | Gametopia2026/Assets/Scripts/Scene/SceneController.cs:69-101 | a first click on a navigation hotspot announces the transition and leaves one running; a second click announces it again exactly when the controller has a fade canvas, because only the fade-less path checks for a running transition |
| Hotspots.PuzzleEvents | Gametopia2026/Assets/Scripts/Interaction/HotspotComponent.cs:572-584 | ShowPuzzle is published with the puzzle id exactly when the id is non-empty |
| Hotspots.ExamineEvents | Gametopia2026/Assets/Scripts/Interaction/HotspotComponent.cs:589-607 | at most one event: the examine text as a dialogue if there is one, else the success event |
| Hotspots.ClickItemUse | Gametopia2026/Assets/Scripts/Interaction/HotspotComponent.cs:394-419 | with an inventory, the selected item is tried and a refusal is explained in a dialogue naming the needed and the held item; with nothing selected the dialogue asks for an item |
| Hotspots.OnClicked | Gametopia2026/Assets/Scripts/Interaction/HotspotComponent.cs:374-424 | an inactive hotspot does nothing; otherwise the action of its type runs; the inventory stays valid |
| Hotspots.PickupPersists | Gametopia2026/Assets/Scripts/Interaction/HotspotComponent.cs:479-489 | after a successful pickup, a fresh copy of the same hotspot that checks the scene state at start is deactivated |
| Hotspots.ItemUsePersists | Gametopia2026/Assets/Scripts/Interaction/HotspotComponent.cs:536-543 | the same holds after an accepted item |
| Hotspots.ConsumedItemIsGone | Gametopia2026/Assets/Scripts/Interaction/HotspotComponent.cs:519-522 | a consumed item leaves both the inventory and the game state's collected ids |
| Hotspots.ToolIsKept | Gametopia2026/Assets/Scripts/Interaction/HotspotComponent.cs:523-527 | an item that is not consumed stays in the inventory, deselected |
| HotspotRegistry.Empty | Gametopia2026/Assets/Scripts/Interaction/HotspotManager.cs:21-26 | a new manager has no hotspots and no hover |
| HotspotRegistry.RegisterHotspot | Gametopia2026/Assets/Scripts/Interaction/HotspotManager.cs:103-115 | a null or already-registered hotspot is ignored; otherwise it is appended; the registry stays duplicate-free |
| HotspotRegistry.UnregisterHotspot | Gametopia2026/Assets/Scripts/Interaction/HotspotManager.cs:121-140 | an unregistered hotspot is ignored; otherwise exactly that hotspot leaves the list, and if it was hovered it gets an exit and the hover clears |
| HotspotRegistry.ClearAllHotspots | Gametopia2026/Assets/Scripts/Interaction/HotspotManager.cs:145-158 | the hovered hotspot gets an exit; the registry and the hover are emptied |
| HotspotRegistry.TopIndex | Gametopia2026/Assets/Scripts/Interaction/HotspotManager.cs:206-221 | the scan returns the highest index whose hotspot exists, is active and contains the point, and none exactly when there is no such index |
| HotspotRegistry.GetHotspotAtPosition | Gametopia2026/Assets/Scripts/Interaction/HotspotManager.cs:202-222 | the result is a registered, active hotspot containing the point, and none exactly when no registered hotspot qualifies |
| HotspotRegistry.CheckHover | Gametopia2026/Assets/Scripts/Interaction/HotspotManager.cs:167-195 | the hover follows the hit test; an unchanged target sends nothing; a change sends an exit to the old target and an enter to the new one, which becomes hovered; active flags are untouched |
| HotspotRegistry.HandleClick | Gametopia2026/Assets/Scripts/Interaction/HotspotManager.cs:231-248 | clicks are ignored while dragging or with nothing hovered; otherwise only the hovered hotspot handles the click and HotspotTriggered follows its events. When the click announces a transition at once, the manager has already cleared itself through its SceneTransitionStart subscription, so the registry is empty and HotspotTriggered carries no hotspot; otherwise it carries the hovered hotspot and the manager is unchanged |
| HotspotRegistry.NavigationClickClearsHotspots | Gametopia2026/Assets/Scripts/Interaction/HotspotManager.cs:84-88 | a click on a navigation hotspot with no fade canvas leaves no registered and no hovered hotspot, the clicked one unhovered, a transition running, and the events SceneTransitionStart then HotspotTriggered with no hotspot |
| HotspotRegistry.HandleItemDrop | Gametopia2026/Assets/Scripts/Interaction/HotspotManager.cs:256-284 | a null item, or a drop where nothing is hit, gives false with no change; otherwise the result is the hit hotspot's TryUseItem; success implies a hit hotspot that accepts the item |
| HotspotRegistry.OnSceneTransitionStart | Gametopia2026/Assets/Scripts/Interaction/HotspotManager.cs:321-324 | a scene change clears all hotspots and the hover |
| HotspotRegistry.HoverSettles | Gametopia2026/Assets/Scripts/Interaction/HotspotManager.cs:179-194 | a second hover check at the same pointer position sends nothing and changes nothing |
| Levels.AllListed | Gametopia2026/Assets/Scripts/Level/LevelManager.cs:167-175 | the early-exit loop holds exactly when every id is listed |
| Levels.CheckRequiredPuzzles | Gametopia2026/Assets/Scripts/Level/LevelManager.cs:160-178 | true exactly when every required puzzle is solved; vacuously true for a missing or empty list |
| Levels.CheckRequiredItems | Gametopia2026/Assets/Scripts/Level/LevelManager.cs:183-201 | true exactly when every required item is collected; vacuously true for a missing or empty list |
| Levels.CompleteLevel | Gametopia2026/Assets/Scripts/Level/LevelManager.cs:206-238 | a completed level changes nothing; otherwise the level is marked complete, the game's level becomes max(level, levelNumber + 1), and LevelComplete is published with the level number; the level never decreases |
| Levels.CheckLevelCompletion | Gametopia2026/Assets/Scripts/Level/LevelManager.cs:139-155 | the level completes exactly when both checks hold, and it completes only once; otherwise nothing changes |
| Levels.OnMiniBugCollected | Gametopia2026/Assets/Scripts/Level/LevelManager.cs:119-130 | the per-run counter rises by exactly one, and BugCounterUpdate carries the game's bug total and the level's bug count |
| Levels.PickedBugIsCounted | Gametopia2026/Assets/Scripts/Level/LevelManager.cs:119-130 | a MiniBug that the inventory accepts (InventorySystem.cs:92-96) raises the game's total and the run counter by one each, and the counter display is told the new total |
| Levels.CompletesAtMostOnce | Gametopia2026/Assets/Scripts/Level/LevelManager.cs:141-142 | a second completion check publishes nothing and changes nothing |
| Levels.RequirementsStayMet | Gametopia2026/Assets/Scripts/Level/LevelManager.cs:160-201 | solving a puzzle or collecting an item never un-meets the requirements |
| SmartExamine.ListenName | Gametopia2026/Assets/Scripts/Interaction/SmartHotspot.cs:51 | the listen name is "hotspot_examine_" followed by the hotspot id, and it is never empty |
| SmartExamine.Start | Gametopia2026/Assets/Scripts/Interaction/SmartHotspot.cs:44-54 | with a hotspot alongside, the listener subscribes under that hotspot's listen name; otherwise the bus is unchanged |
| SmartExamine.OnExamineTriggered | Gametopia2026/Assets/Scripts/Interaction/SmartHotspot.cs:62-70 | exactly one ShowDialogue event; its text is textWithItem when an item is required, there is an inventory and it holds the item, and textWithoutItem otherwise |
| SmartExamine.ExamineReachesListener | Gametopia2026/Assets/Scripts/Interaction/SmartHotspot.cs:12 | an examine hotspot with no text and the listen name as its success event publishes one event, which the bus delivers to the listener exactly once |
| Activation.OnEnable | Gametopia2026/Assets/Scripts/Utilities/ActivateOnEvent.cs:32-36 | with an empty event name it never subscribes; otherwise it subscribes once |
| Activation.SetAll | Gametopia2026/Assets/Scripts/Utilities/ActivateOnEvent.cs:49-65 | every present entry gets the flag, null entries are skipped, and other objects keep their flags |
| Activation.OnEventReceived | Gametopia2026/Assets/Scripts/Utilities/ActivateOnEvent.cs:44-70 | a run-once activator that has fired ignores the event; otherwise activations then deactivations are applied, so an object in both lists ends inactive, and a run-once activator unsubscribes |
| Activation.RunOnceFiresOnce | Gametopia2026/Assets/Scripts/Utilities/ActivateOnEvent.cs:46-47 | with runOnce, a second event has no effect at all |
| Activation.RepeatableWithoutRunOnce | Gametopia2026/Assets/Scripts/Utilities/ActivateOnEvent.cs:44-65 | without runOnce, a second event applies the actions again and gives the same result |
| Activation.RunOnceUnsubscribes | Gametopia2026/Assets/Scripts/Utilities/ActivateOnEvent.cs:68-69 | a run-once activator subscribed once is no longer delivered its event after firing, under either removal policy |

## Left out

- JSON save and load, through the engine's reflection serializer, is left out. This covers `GameStateData.Serialize`/`Deserialize`, `SceneState.Serialize`/`Deserialize`, the JSON calls of `SceneController.SerializeSceneStates`/`DeserializeSceneStates`, and the `PlayerPrefs` store of `GameManager`. Only the list-to-map step is modelled.
- Coroutine timing, fades, asynchronous load progress and `DateTime` timestamps are engine services. A load is modelled by its start and its end, and the time is a parameter.
- The floating-point countdown of `PuzzleBase.Update` is left out. `Puzzles.Update` states only the Escape path and the no-timer case, and expiry is the explicit step `Puzzles.OnTimerExpired`.
- Puzzles.Update: its contract says nothing about the countdown with a running timer, because floating-point time is not modelled.
- Rectangle containment (`IsPointInBounds`, `CalculateBoundsFromSprite`) is replaced by a given set of hit handles. The camera and the screen-to-world conversion are left out too.
- Tweens, sprites, colours, the cursor, gizmos, sounds, animator triggers and input polling are left out.
- `CodeInputPuzzle.OnInputEndEdit` is left out because it is key polling. When Enter is down it is `OnSubmitClicked`, which `PuzzleInput.OnSubmitClicked` models.
- The object deactivation after a pickup is left out. That fade, or the immediate `gameObject.SetActive(false)` when there is no sprite, unregisters the hotspot from the manager through `OnDisable`. The model keeps only the `isActive` flag. The same `OnEnable`/`OnDisable` cascade is not modelled for the objects that `ActivateOnEvent` switches on and off: a hotspot among them is not registered with, or removed from, the manager (HotspotComponent.cs:219-233); `Activation.SetAll` keeps only a flag per object.
- `LevelManager`'s delayed load of the next level and its auto-save through `GameManager` are left out.
- `InventorySystem.LoadFromGameState` is left out. It depends on an item database that is not part of this model.
- `PuzzleSystem.OnPuzzleSolvedEvent` is left out because it only logs. `DiscoverPuzzles`, which finds puzzles through the engine, is left out too.
- Singleton lookup (`FindFirstObjectByType`, `Instance`) and auto-generated hotspot ids are left out. A missing system is an `Option` parameter instead. A missing event manager in `PuzzleBase` is not modelled: events are always recorded.
- Listener callbacks are not run inside `EventBus.Publish`. It returns the deliveries, and the listener's owner handles each one as its own step.
- EventBus.Unsubscribe: it does not decide whether a listener registered twice loses one registration or all of them, because the engine does not document it; both choices are given as `RemovalPolicy`.
- `String.Trim`, `Char.IsWhiteSpace`, `int.Parse`, `int.TryParse` and `OrdinalIgnoreCase` are modelled from their documented .NET behaviour; the .NET sources are not part of this model. The number forms supported are ASCII white space, an optional sign and decimal digits, under the invariant culture's signs. Case folding is ASCII only.
- PuzzleInput.TypeCode: it puts any text into the code field and does not apply the field's `IntegerNumber` filter, which is the text editor's job; `PuzzleConfig.IntegerFieldText` states that filter, and `PuzzleInput.UsableCodeSolves` ranges over exactly the text it admits. `PuzzleInput.TypedSolutionSolves` and `PuzzleInput.PaddedCodeNeverSolves` hold for any text, including text the field would refuse.
- The UI-only files (`InventoryUI`, `InventorySlot`, `BugCounterUI`, `DialoguePopup`), `GameManager` and the test scripts are not part of this model.
- HotspotRegistry.HandleClick: with a fade canvas the source publishes SceneTransitionStart only after the fade-out, so after HotspotTriggered, and the manager clears its hotspots then; the model lists the start announcement first and leaves that later clearing to the manager's own `OnSceneTransitionStart` step.
- SceneControl.FinishLoad: a completed load of the empty name is taken to key the empty name. `LoadScene` refuses that name, and the fade path would hand it to the engine, which fails to load it.
- Levels.CompleteLevel, Puzzles.BaseFailed, Inventory.AddItem, Levels.OnMiniBugCollected: C# `int` is 32 bits wide, but `levelNumber + 1` (LevelManager.cs:218-220), `currentAttempts++` (PuzzleBase.cs:407), `miniBugsCollected++` (InventorySystem.cs:94) and `bugsCollectedThisRun++` (LevelManager.cs:121) are modelled as unbounded integers. Their wrap-around to a negative value past `int.MaxValue` is not modelled. So `Puzzles.Wf` (attempts never negative), `Puzzles.FailuresUnlimited` and the `levelNumber + 1` bound of `Levels.CompleteLevel` hold only while no such value passes `int.MaxValue` (2^31 - 1).
- A puzzle id that is `null` in the registration loop would throw in C#. The model has no null strings, so such a puzzle is registered like any other.

## Findings

| source | as written | input that shows it | evidently intended | confidence | as-written member | corrected member |
|---|---|---|---|---|---|---|
| Gametopia2026/Assets/Scripts/Core/EventManager.cs:196-199 | `HasSubscribers` returns whether the name has an entry. Its documentation says "True if event exists and has listeners" | Subscribe one listener to "X", then call `ClearEvent("X")`. The method then answers true with no listener, and the same happens after the last `Unsubscribe` | true only when the entry exists and its listener list is non-empty | not executed; read from the code and its documentation comment | EventBus.HasSubscribersAfterClear | EventBus.HasListenersIffDelivers |
| Gametopia2026/Assets/Scripts/Puzzle/PuzzleConfig.cs:187 | The editor's check for a code solution uses `int.TryParse`, which accepts surrounding white space, while `CodeInputPuzzle` trims the typed text (CodeInputPuzzle.cs:179) and compares it with the untrimmed solution (CodeInputPuzzle.cs:239) | A code puzzle whose solution is " 42 ": the editor raises no warning, and no typed text ever solves it | the editor warns about any code the player cannot type into the `IntegerNumber` field, so a code with surrounding white space, or with a plus sign, is rejected | not executed; read from the code | PuzzleInput.PaddedCodeValidatesButNeverSolves | PuzzleInput.UsableCodeSolves |
