/**
 * What one scene remembers (`SceneState`): which items were collected and which
 * puzzles solved there, which hotspots are switched off, and whether it was
 * visited. The three id lists are used with set semantics.
 */
module SceneStates {
  import opened IdLists

  datatype SceneState = SceneState(
    sceneName: string,
    collectedItemIDs: seq<string>,
    solvedPuzzleIDs: seq<string>,
    disabledHotspotIDs: seq<string>,
    visited: bool,
    lastVisitTime: string)

  /** All three id lists are free of duplicates. */
  predicate Valid(s: SceneState) {
    NoDup(s.collectedItemIDs) && NoDup(s.solvedPuzzleIDs) && NoDup(s.disabledHotspotIDs)
  }

  /** `new SceneState(name)`: unvisited, no timestamp, nothing recorded. */
  function NewSceneState(name: string): (s: SceneState)
    ensures s.sceneName == name && !s.visited && s.lastVisitTime == ""
    ensures Valid(s)
    ensures forall id :: !IsItemCollected(s, id) && !IsPuzzleSolved(s, id) && !IsHotspotDisabled(s, id)
  {
    SceneState(name, [], [], [], false, "")
  }

  /** `IsItemCollected(itemID)`: some position of the scene's collected list holds the id. */
  function IsItemCollected(s: SceneState, itemID: string): (r: bool)
    ensures r <==> exists i :: 0 <= i < |s.collectedItemIDs| && s.collectedItemIDs[i] == itemID
  {
    itemID in s.collectedItemIDs
  }

  /** `IsPuzzleSolved(puzzleID)`: some position of the scene's solved list holds the id. */
  function IsPuzzleSolved(s: SceneState, puzzleID: string): (r: bool)
    ensures r <==> exists i :: 0 <= i < |s.solvedPuzzleIDs| && s.solvedPuzzleIDs[i] == puzzleID
  {
    puzzleID in s.solvedPuzzleIDs
  }

  /** `IsHotspotDisabled(hotspotID)`: some position of the disabled list holds the id. */
  function IsHotspotDisabled(s: SceneState, hotspotID: string): (r: bool)
    ensures r <==> exists i :: 0 <= i < |s.disabledHotspotIDs| && s.disabledHotspotIDs[i] == hotspotID
  {
    hotspotID in s.disabledHotspotIDs
  }

  /** `MarkItemCollected`: the id becomes recorded, nothing else changes, a repeat is a no-op. */
  function MarkItemCollected(s: SceneState, itemID: string): (r: SceneState)
    ensures forall id :: IsItemCollected(r, id) <==> IsItemCollected(s, id) || id == itemID
    ensures IsItemCollected(s, itemID) ==> r == s
    ensures Valid(s) ==> Valid(r)
    ensures r == s.(collectedItemIDs := r.collectedItemIDs)
  {
    s.(collectedItemIDs := AddUnique(s.collectedItemIDs, itemID))
  }

  /** `MarkPuzzleSolved`: the id becomes recorded, nothing else changes, a repeat is a no-op. */
  function MarkPuzzleSolved(s: SceneState, puzzleID: string): (r: SceneState)
    ensures forall id :: IsPuzzleSolved(r, id) <==> IsPuzzleSolved(s, id) || id == puzzleID
    ensures IsPuzzleSolved(s, puzzleID) ==> r == s
    ensures Valid(s) ==> Valid(r)
    ensures r == s.(solvedPuzzleIDs := r.solvedPuzzleIDs)
  {
    s.(solvedPuzzleIDs := AddUnique(s.solvedPuzzleIDs, puzzleID))
  }

  /** `DisableHotspot`: the id becomes recorded, nothing else changes, a repeat is a no-op. */
  function DisableHotspot(s: SceneState, hotspotID: string): (r: SceneState)
    ensures forall id :: IsHotspotDisabled(r, id) <==> IsHotspotDisabled(s, id) || id == hotspotID
    ensures IsHotspotDisabled(s, hotspotID) ==> r == s
    ensures Valid(s) ==> Valid(r)
    ensures r == s.(disabledHotspotIDs := r.disabledHotspotIDs)
  {
    s.(disabledHotspotIDs := AddUnique(s.disabledHotspotIDs, hotspotID))
  }

  /** `MarkVisited`: visited and stamped with the time `now`, which the caller supplies. */
  function MarkVisited(s: SceneState, now: string): (r: SceneState)
    ensures r.visited && r.lastVisitTime == now
    ensures r.sceneName == s.sceneName && r.collectedItemIDs == s.collectedItemIDs
    ensures r.solvedPuzzleIDs == s.solvedPuzzleIDs && r.disabledHotspotIDs == s.disabledHotspotIDs
  {
    s.(visited := true, lastVisitTime := now)
  }

  /** No mark operation ever clears the visited flag. */
  lemma MarksKeepVisited(s: SceneState, id: string, now: string)
    ensures MarkItemCollected(s, id).visited == s.visited
    ensures MarkPuzzleSolved(s, id).visited == s.visited
    ensures DisableHotspot(s, id).visited == s.visited
    ensures MarkVisited(s, now).visited
  {
  }
}
