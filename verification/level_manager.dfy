/**
 * Level completion (`LevelManager`): the required puzzles and items, the
 * one-shot completion that raises the game's level, and the per-run bug counter.
 */
module Levels {
  import opened Wrappers
  import opened GameData
  import GS = GameStateData
  import Inv = Inventory

  datatype Level = Level(
    levelNumber: int,
    requiredPuzzles: Option<seq<string>>,
    requiredItems: Option<seq<string>>,
    totalMiniBugsInLevel: int,
    levelCompleted: bool,
    bugsCollectedThisRun: int)

  /** The level manager, the game state and the events of one call. */
  datatype LevelStep = LevelStep(l: Level, game: GS.GameState, events: seq<Event>)

  /** Every id of `ids` occurs in `within`, checked front to back and stopping at the first miss. */
  function AllListed(ids: seq<string>, within: seq<string>): (r: bool)
    ensures r <==> forall i :: 0 <= i < |ids| ==> ids[i] in within
  {
    if |ids| == 0 then true
    else if ids[0] !in within then false
    else
      var r := AllListed(ids[1..], within);
      assert forall i :: 1 <= i < |ids| ==> ids[i] == ids[1..][i - 1];
      r
  }

  /** `CheckRequiredPuzzles()`: every listed puzzle is solved; true for a missing or empty list. */
  function CheckRequiredPuzzles(l: Level, game: GS.GameState): (r: bool)
    ensures l.requiredPuzzles.None? ==> r
    ensures l.requiredPuzzles.Some? ==>
      (r <==> forall i :: 0 <= i < |l.requiredPuzzles.value| ==>
                GS.IsPuzzleSolved(game, l.requiredPuzzles.value[i]))
  {
    match l.requiredPuzzles
    case None => true
    case Some(ids) => |ids| == 0 || AllListed(ids, game.solvedPuzzleIDs)
  }

  /** `CheckRequiredItems()`: every listed item is collected; true for a missing or empty list. */
  function CheckRequiredItems(l: Level, game: GS.GameState): (r: bool)
    ensures l.requiredItems.None? ==> r
    ensures l.requiredItems.Some? ==>
      (r <==> forall i :: 0 <= i < |l.requiredItems.value| ==>
                GS.HasItem(game, l.requiredItems.value[i]))
  {
    match l.requiredItems
    case None => true
    case Some(ids) => |ids| == 0 || AllListed(ids, game.collectedItemIDs)
  }

  /**
   * `CompleteLevelmethod()`: at most once per level; the game's level becomes
   * at least the next level number, and the completion is announced with the
   * level number.
   */
  function CompleteLevel(l: Level, game: GS.GameState): (r: LevelStep)
    ensures l.levelCompleted ==> r == LevelStep(l, game, [])
    ensures !l.levelCompleted ==>
      r.l == l.(levelCompleted := true) &&
      r.game == game.(currentLevel := r.game.currentLevel) &&
      r.events == [Event(LevelComplete, Number(l.levelNumber))]
    ensures r.game.currentLevel >= game.currentLevel
    ensures !l.levelCompleted ==>
      r.game.currentLevel >= l.levelNumber + 1 &&
      (r.game.currentLevel == game.currentLevel || r.game.currentLevel == l.levelNumber + 1)
  {
    if l.levelCompleted then LevelStep(l, game, [])
    else
      var level := if game.currentLevel < l.levelNumber + 1 then l.levelNumber + 1 else game.currentLevel;
      LevelStep(l.(levelCompleted := true), game.(currentLevel := level), [Event(LevelComplete, Number(l.levelNumber))])
  }

  /** The completion condition: both requirement checks hold. */
  predicate RequirementsMet(l: Level, game: GS.GameState) {
    CheckRequiredPuzzles(l, game) && CheckRequiredItems(l, game)
  }

  /**
   * `CheckLevelCompletion()`, run at start and on every solved puzzle or
   * collected item: completes the level when both checks hold.
   */
  function CheckLevelCompletion(l: Level, game: GS.GameState): (r: LevelStep)
    ensures r.l.levelCompleted <==> l.levelCompleted || RequirementsMet(l, game)
    ensures l.levelCompleted || !RequirementsMet(l, game) ==> r == LevelStep(l, game, [])
    ensures !l.levelCompleted && RequirementsMet(l, game) ==> r == CompleteLevel(l, game)
    ensures r.game.currentLevel >= game.currentLevel
  {
    if l.levelCompleted then LevelStep(l, game, [])
    else if RequirementsMet(l, game) then CompleteLevel(l, game)
    else LevelStep(l, game, [])
  }

  /**
   * `OnMiniBugCollected`: the per-run counter goes up by exactly one and the
   * counter display is told the game's total and the level's bug count.
   */
  function OnMiniBugCollected(l: Level, game: GS.GameState): (r: LevelStep)
    ensures r.l == l.(bugsCollectedThisRun := l.bugsCollectedThisRun + 1)
    ensures r.game == game
    ensures r.events == [Event(BugCounterUpdate, BugCount(game.miniBugsCollected, l.totalMiniBugsInLevel))]
  {
    LevelStep(l.(bugsCollectedThisRun := l.bugsCollectedThisRun + 1), game,
              [Event(BugCounterUpdate, BugCount(game.miniBugsCollected, l.totalMiniBugsInLevel))])
  }

  /**
   * A MiniBug picked up into the inventory and then heard by the level moves
   * both counters by one, and the display is told the new game total.
   */
  lemma PickedBugIsCounted(l: Level, inv: Inv.Inventory, game: GS.GameState, item: Option<ItemData>)
    requires item.Some? && item.value.isMiniBug && Inv.AddItem(inv, game, item).added
    ensures var after := Inv.AddItem(inv, game, item).out.game;
      var step := OnMiniBugCollected(l, after);
      after.miniBugsCollected == game.miniBugsCollected + 1 &&
      step.l.bugsCollectedThisRun == l.bugsCollectedThisRun + 1 &&
      step.events == [Event(BugCounterUpdate, BugCount(game.miniBugsCollected + 1, l.totalMiniBugsInLevel))]
  {
  }

  /** The level completes once: a second check publishes nothing and changes nothing. */
  lemma CompletesAtMostOnce(l: Level, game: GS.GameState)
    ensures var first := CheckLevelCompletion(l, game);
      CheckLevelCompletion(first.l, first.game) == LevelStep(first.l, first.game, [])
  {
  }

  /** Progress never un-meets the requirements: solving a puzzle or collecting an item keeps them met. */
  lemma RequirementsStayMet(l: Level, game: GS.GameState, puzzleID: string, itemID: string)
    requires RequirementsMet(l, game)
    ensures RequirementsMet(l, GS.MarkPuzzleSolved(game, puzzleID))
    ensures RequirementsMet(l, GS.AddCollectedItem(game, itemID))
  {
  }
}
