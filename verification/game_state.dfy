/**
 * The persistent progress record (`GameStateData`): level, scene, the ids of
 * collected items and solved puzzles, and counters. Both id lists are used
 * with set semantics: an id is added only when absent.
 */
module GameStateData {
  import opened IdLists

  datatype GameState = GameState(
    currentLevel: int,
    currentScene: string,
    collectedItemIDs: seq<string>,
    solvedPuzzleIDs: seq<string>,
    sceneStates: map<string, string>,
    totalPlayTime: real,
    miniBugsCollected: int,
    lastSaveTime: string)

  /** Both id lists are free of duplicates. */
  predicate Valid(g: GameState) {
    NoDup(g.collectedItemIDs) && NoDup(g.solvedPuzzleIDs)
  }

  /** The defaults of a new game. */
  function NewGame(): (g: GameState)
    ensures Valid(g)
    ensures g.currentLevel == 1 && g.currentScene == "MainMenu"
    ensures g.collectedItemIDs == [] && g.solvedPuzzleIDs == [] && g.sceneStates == map[]
    ensures g.totalPlayTime == 0.0 && g.miniBugsCollected == 0 && g.lastSaveTime == ""
  {
    GameState(1, "MainMenu", [], [], map[], 0.0, 0, "")
  }

  /** `Reset()`: every field back to the new-game default, whatever the state was. */
  function Reset(g: GameState): (r: GameState)
    ensures r == NewGame()
    ensures Valid(r)
    ensures forall id :: !HasItem(r, id) && !IsPuzzleSolved(r, id)
  {
    NewGame()
  }

  /** `HasItem(itemID)`: some position of the collected list holds the id. */
  function HasItem(g: GameState, itemID: string): (r: bool)
    ensures r <==> exists i :: 0 <= i < |g.collectedItemIDs| && g.collectedItemIDs[i] == itemID
  {
    itemID in g.collectedItemIDs
  }

  /** `IsPuzzleSolved(puzzleID)`: some position of the solved list holds the id. */
  function IsPuzzleSolved(g: GameState, puzzleID: string): (r: bool)
    ensures r <==> exists i :: 0 <= i < |g.solvedPuzzleIDs| && g.solvedPuzzleIDs[i] == puzzleID
  {
    puzzleID in g.solvedPuzzleIDs
  }

  /** `AddCollectedItem(itemID)`: adds the id when absent; only the collected list changes. */
  function AddCollectedItem(g: GameState, itemID: string): (r: GameState)
    ensures HasItem(r, itemID)
    ensures forall id :: HasItem(r, id) <==> HasItem(g, id) || id == itemID
    ensures HasItem(g, itemID) ==> r == g
    ensures Valid(g) ==> Valid(r)
    ensures r == g.(collectedItemIDs := r.collectedItemIDs)
  {
    g.(collectedItemIDs := AddUnique(g.collectedItemIDs, itemID))
  }

  /** `MarkPuzzleSolved(puzzleID)`: adds the id when absent; only the solved list changes. */
  function MarkPuzzleSolved(g: GameState, puzzleID: string): (r: GameState)
    ensures IsPuzzleSolved(r, puzzleID)
    ensures forall id :: IsPuzzleSolved(r, id) <==> IsPuzzleSolved(g, id) || id == puzzleID
    ensures IsPuzzleSolved(g, puzzleID) ==> r == g
    ensures Valid(g) ==> Valid(r)
    ensures r == g.(solvedPuzzleIDs := r.solvedPuzzleIDs)
  {
    g.(solvedPuzzleIDs := AddUnique(g.solvedPuzzleIDs, puzzleID))
  }

  /**
   * The inventory's `collectedItemIDs.Remove(id)`: the first occurrence goes.
   * On a valid state the id is then absent and every other id stays.
   */
  function RemoveCollectedItem(g: GameState, itemID: string): (r: GameState)
    ensures !HasItem(g, itemID) ==> r == g
    ensures Valid(g) ==> Valid(r) && forall id :: HasItem(r, id) <==> HasItem(g, id) && id != itemID
    ensures r == g.(collectedItemIDs := r.collectedItemIDs)
  {
    var r := g.(collectedItemIDs := RemoveFirst(g.collectedItemIDs, itemID));
    if Valid(g) then RemoveFirstNoDup(g.collectedItemIDs, itemID); r else r
  }

  /** Adding an id twice is adding it once. */
  lemma AddCollectedItemIdempotent(g: GameState, itemID: string)
    ensures AddCollectedItem(AddCollectedItem(g, itemID), itemID) == AddCollectedItem(g, itemID)
  {
  }

  /** Marking a puzzle twice is marking it once. */
  lemma MarkPuzzleSolvedIdempotent(g: GameState, puzzleID: string)
    ensures MarkPuzzleSolved(MarkPuzzleSolved(g, puzzleID), puzzleID) == MarkPuzzleSolved(g, puzzleID)
  {
  }
}
