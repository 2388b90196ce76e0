/**
 * The lifecycle every puzzle shares (`PuzzleBase`): show, submit, solve, fail,
 * reset, hide and the countdown. A puzzle step may also touch the game state
 * (the solved set, a reward item) and the inventory, and it publishes events.
 */
module Puzzles {
  import opened Wrappers
  import opened GameData
  import opened PuzzleKinds
  import PC = PuzzleConfig
  import GS = GameStateData
  import Inv = Inventory

  datatype Puzzle = Puzzle(
    /** None when no config asset is assigned. */
    config: Option<PC.Config>,
    isActive: bool,
    isSolved: bool,
    currentAttempts: int,
    timeRemaining: real,
    timerActive: bool,
    allowEscapeToClose: bool,
    kind: Kind)

  /** The puzzle together with the game state, inventory and events after one step. */
  datatype Step = Step(puzzle: Puzzle, game: GS.GameState, inv: Option<Inv.Inventory>, events: seq<Event>)

  /** A puzzle as it starts out: hidden, unsolved, no attempts, no timer. */
  function NewPuzzle(config: Option<PC.Config>, allowEscapeToClose: bool, kind: Kind): (p: Puzzle)
    ensures Wf(p) && !p.isActive && !p.isSolved && p.currentAttempts == 0 && !p.timerActive
  {
    Puzzle.Puzzle(config, false, false, 0, 0.0, false, allowEscapeToClose, kind)
  }

  /** Only a configured puzzle can be active or timing, and attempts are never negative. */
  predicate Wf(p: Puzzle) {
    (p.isActive || p.timerActive ==> p.config.Some?) && p.currentAttempts >= 0
  }

  /** The puzzle's id, when it has a config. */
  function Id(p: Puzzle): string
    requires p.config.Some?
  {
    p.config.value.puzzleID
  }

  /** The configured failure limit; 0 means unlimited. */
  function MaxAttempts(p: Puzzle): int
    requires p.config.Some?
  {
    p.config.value.maxAttempts
  }

  /**
   * `ShowPuzzle()`: nothing happens without a config or when the game state
   * already lists the puzzle as solved; otherwise it becomes active and
   * unsolved with no attempts, the timer starts when there is a time limit, and
   * the kind reads its solution.
   */
  function ShowPuzzle(p: Puzzle, game: GS.GameState): (r: Puzzle)
    requires Wf(p)
    ensures Wf(r)
    ensures p.config.None? || GS.IsPuzzleSolved(game, Id(p)) ==> r == p
    ensures p.config.Some? && !GS.IsPuzzleSolved(game, Id(p)) ==>
      r.isActive && !r.isSolved && r.currentAttempts == 0 &&
      r.config == p.config && r.allowEscapeToClose == p.allowEscapeToClose &&
      r.kind == SetupPuzzleUI(p.kind, p.config.value) &&
      (p.config.value.timeLimit > 0.0 ==> r.timerActive && r.timeRemaining == p.config.value.timeLimit) &&
      (p.config.value.timeLimit <= 0.0 ==> r.timerActive == p.timerActive && r.timeRemaining == p.timeRemaining)
  {
    if p.config.None? || GS.IsPuzzleSolved(game, Id(p)) then p
    else
      var c := p.config.value;
      var p1 := p.(isActive := true, isSolved := false, currentAttempts := 0);
      var p2 := if c.timeLimit > 0.0 then p1.(timeRemaining := c.timeLimit, timerActive := true) else p1;
      p2.(kind := SetupPuzzleUI(p.kind, c))
  }

  /** `HidePuzzle()`: inactive with the timer stopped, solved left alone, and the hide announced with the id. */
  function HidePuzzle(p: Puzzle): (r: (Puzzle, seq<Event>))
    requires Wf(p)
    ensures Wf(r.0)
    ensures !r.0.isActive && !r.0.timerActive
    ensures r.0 == p.(isActive := false, timerActive := false)
    ensures p.config.None? ==> r.1 == []
    ensures p.config.Some? ==> r.1 == [Event(GameData.HidePuzzle, Text(Id(p)))]
  {
    var q := p.(isActive := false, timerActive := false);
    if p.config.Some? then (q, [Event(GameData.HidePuzzle, Text(Id(p)))]) else (q, [])
  }

  /**
   * `ResetPuzzle()`: attempts back to zero, the timer restarted when there is
   * a time limit, and the kind's buffer emptied; nothing else changes.
   */
  function ResetPuzzle(p: Puzzle): (r: Puzzle)
    requires Wf(p)
    ensures Wf(r)
    ensures r.currentAttempts == 0 && InputCleared(r.kind) && SameSolution(p.kind, r.kind)
    ensures r.config == p.config && r.isActive == p.isActive && r.isSolved == p.isSolved
    ensures r.allowEscapeToClose == p.allowEscapeToClose
    ensures p.config.Some? && p.config.value.timeLimit > 0.0 ==>
      r.timerActive && r.timeRemaining == p.config.value.timeLimit
    ensures !(p.config.Some? && p.config.value.timeLimit > 0.0) ==>
      r.timerActive == p.timerActive && r.timeRemaining == p.timeRemaining
  {
    var p1 := p.(currentAttempts := 0);
    var p2 := if p.config.Some? && p.config.value.timeLimit > 0.0
      then p1.(timeRemaining := p.config.value.timeLimit, timerActive := true) else p1;
    p2.(kind := ResetPuzzleState(p.kind))
  }

  /**
   * `OnPuzzleSolved()`: solved, inactive, timer off, the id recorded in the
   * game state, the reward (if any) offered to the inventory (if there is one),
   * then the announcement and the custom success event (if named).
   */
  function OnPuzzleSolved(p: Puzzle, game: GS.GameState, inv: Option<Inv.Inventory>): (r: Step)
    requires Wf(p) && p.config.Some?
    ensures Wf(r.puzzle)
    ensures r.puzzle == p.(isSolved := true, isActive := false, timerActive := false)
    ensures GS.IsPuzzleSolved(r.game, Id(p))
    ensures var c := p.config.value;
      var g1 := GS.MarkPuzzleSolved(game, c.puzzleID);
      var rewarded := c.rewardItem.Some? && inv.Some?;
      var add := if rewarded then Inv.AddItem(inv.value, g1, c.rewardItem).out else Inv.Outcome(Inv.NewInventory(), g1, []);
      var tail := [Event(PuzzleSolved, Text(c.puzzleID))] +
                  (if c.successEvent != "" then [Event(c.successEvent, Text(c.puzzleID))] else []);
      (rewarded ==> r.game == add.game && r.inv == Some(add.inv) && r.events == add.events + tail) &&
      (!rewarded ==> r.game == g1 && r.inv == inv && r.events == tail)
  {
    var c := p.config.value;
    var q := p.(isSolved := true, isActive := false, timerActive := false);
    var g1 := GS.MarkPuzzleSolved(game, c.puzzleID);
    var tail := [Event(PuzzleSolved, Text(c.puzzleID))] +
                (if c.successEvent != "" then [Event(c.successEvent, Text(c.puzzleID))] else []);
    if c.rewardItem.Some? && inv.Some? then
      var add := Inv.AddItem(inv.value, g1, c.rewardItem).out;
      MarkedStaysMarked(g1, add.game, c.puzzleID);
      Step(q, add.game, Some(add.inv), add.events + tail)
    else
      Step(q, g1, inv, tail)
  }

  /** Adding an item never unmarks a solved puzzle. */
  lemma MarkedStaysMarked(g: GS.GameState, g2: GS.GameState, id: string)
    requires GS.IsPuzzleSolved(g, id) && g2.solvedPuzzleIDs == g.solvedPuzzleIDs
    ensures GS.IsPuzzleSolved(g2, id)
  {
  }

  /**
   * The base part of `OnPuzzleFailed()`: one more attempt, and when a positive
   * limit is reached the puzzle resets; the failure is announced.
   */
  function BaseFailed(p: Puzzle): (r: (Puzzle, seq<Event>))
    requires Wf(p) && p.config.Some?
    ensures Wf(r.0)
    ensures var n := p.currentAttempts + 1;
      if MaxAttempts(p) > 0 && n >= MaxAttempts(p) then r.0 == ResetPuzzle(p.(currentAttempts := n))
      else r.0 == p.(currentAttempts := n)
    ensures r.1 == [Event(PuzzleFailed, Text(Id(p)))]
  {
    var p1 := p.(currentAttempts := p.currentAttempts + 1);
    var p2 := if MaxAttempts(p) > 0 && p1.currentAttempts >= MaxAttempts(p) then ResetPuzzle(p1) else p1;
    (p2, [Event(PuzzleFailed, Text(Id(p)))])
  }

  /**
   * `OnPuzzleFailed()` as every kind overrides it: the kind empties its buffer
   * (after a short delay, taken here as immediate) around the base behaviour.
   */
  function OnPuzzleFailed(p: Puzzle): (r: (Puzzle, seq<Event>))
    requires Wf(p) && p.config.Some?
    ensures Wf(r.0)
    ensures InputCleared(r.0.kind) && SameSolution(p.kind, r.0.kind)
    ensures r.0.isActive == p.isActive && r.0.isSolved == p.isSolved && r.0.config == p.config
    ensures var n := p.currentAttempts + 1;
      if MaxAttempts(p) > 0 && n >= MaxAttempts(p) then r.0.currentAttempts == 0
      else r.0.currentAttempts == n
    ensures MaxAttempts(p) > 0 && p.currentAttempts < MaxAttempts(p) ==> 0 <= r.0.currentAttempts < MaxAttempts(p)
    ensures MaxAttempts(p) <= 0 ==> r.0.currentAttempts == p.currentAttempts + 1
    ensures r.1 == [Event(PuzzleFailed, Text(Id(p)))]
  {
    var b := BaseFailed(p);
    (b.0.(kind := ResetPuzzleState(b.0.kind)), b.1)
  }

  /** `OnTimerExpired()`: the timer stops at zero, and then it is an ordinary failure. */
  function OnTimerExpired(p: Puzzle): (r: (Puzzle, seq<Event>))
    requires Wf(p) && p.config.Some?
    ensures r == OnPuzzleFailed(p.(timerActive := false, timeRemaining := 0.0))
    ensures r.1 == [Event(PuzzleFailed, Text(Id(p)))]
  {
    OnPuzzleFailed(p.(timerActive := false, timeRemaining := 0.0))
  }

  /**
   * `SubmitAnswer(answer)`: ignored unless the puzzle is active and unsolved;
   * otherwise the kind's check decides between solved and failed.
   */
  function SubmitAnswer(p: Puzzle, game: GS.GameState, inv: Option<Inv.Inventory>, answer: Answer): (r: Step)
    requires Wf(p)
    ensures Wf(r.puzzle)
    ensures !p.isActive || p.isSolved ==> r == Step(p, game, inv, [])
    ensures p.isActive && !p.isSolved && ValidatePlayerInput(p.kind, answer) ==>
      r == OnPuzzleSolved(p, game, inv) && r.puzzle.isSolved && GS.IsPuzzleSolved(r.game, Id(p))
    ensures p.isActive && !p.isSolved && !ValidatePlayerInput(p.kind, answer) ==>
      var f := OnPuzzleFailed(p);
      r == Step(f.0, game, inv, f.1) && r.puzzle.isActive && !r.puzzle.isSolved
  {
    if !p.isActive || p.isSolved then Step(p, game, inv, [])
    else if ValidatePlayerInput(p.kind, answer) then OnPuzzleSolved(p, game, inv)
    else
      var f := OnPuzzleFailed(p);
      Step(f.0, game, inv, f.1)
  }

  /**
   * One frame of `Update()`: Escape closes an active, unsolved puzzle that
   * allows it; otherwise a running timer with a time limit counts down by
   * `dt` and expires at or below zero.
   */
  function Update(p: Puzzle, dt: real, escapePressed: bool): (r: (Puzzle, seq<Event>))
    requires Wf(p)
    ensures Wf(r.0)
    ensures p.isActive && !p.isSolved && p.allowEscapeToClose && escapePressed ==> r == HidePuzzle(p)
    ensures !p.timerActive && !(p.isActive && !p.isSolved && p.allowEscapeToClose && escapePressed) ==> r == (p, [])
    ensures r.0.isSolved == p.isSolved
  {
    if p.isActive && !p.isSolved && p.allowEscapeToClose && escapePressed then HidePuzzle(p)
    else if p.timerActive && p.config.Some? && p.config.value.timeLimit > 0.0 then
      var q := p.(timeRemaining := p.timeRemaining - dt);
      if q.timeRemaining <= 0.0 then OnTimerExpired(q) else (q, [])
    else (p, [])
  }

  // ------------------------------------------------------------ Repeated failure

  /** The puzzle after `n` consecutive wrong answers. */
  function FailTimes(p: Puzzle, n: nat): (r: Puzzle)
    requires Wf(p) && p.config.Some?
    ensures Wf(r) && r.config == p.config
    decreases n
  {
    if n == 0 then p else FailTimes(OnPuzzleFailed(p).0, n - 1)
  }

  /**
   * With a positive limit, failures count up one by one until the limit is
   * reached, and the failure that reaches it brings the count back to zero.
   */
  lemma {:induction false} FailuresResetAtLimit(p: Puzzle, n: nat)
    requires Wf(p) && p.config.Some? && MaxAttempts(p) > 0
    requires 0 <= p.currentAttempts < MaxAttempts(p)
    requires p.currentAttempts + n <= MaxAttempts(p)
    ensures FailTimes(p, n).currentAttempts ==
      if p.currentAttempts + n == MaxAttempts(p) then 0 else p.currentAttempts + n
    decreases n
  {
    if n > 0 {
      var q := OnPuzzleFailed(p).0;
      if p.currentAttempts + 1 < MaxAttempts(p) {
        FailuresResetAtLimit(q, n - 1);
      }
    }
  }

  /** Starting from zero, after any number of failures the count is that number modulo the limit. */
  lemma {:induction false} FailuresWrapAtLimit(p: Puzzle, n: nat)
    requires Wf(p) && p.config.Some? && MaxAttempts(p) > 0
    requires p.currentAttempts == 0
    ensures FailTimes(p, n).currentAttempts == n % MaxAttempts(p)
    decreases n
  {
    var m := MaxAttempts(p);
    if n < m {
      FailuresResetAtLimit(p, n);
    } else {
      FailuresResetAtLimit(p, m);
      FailTimesSplit(p, m, n - m);
      FailuresWrapAtLimit(FailTimes(p, m), n - m);
      assert n % m == (n - m) % m by { ModSub(n, m); }
    }
  }

  /** Failing `a + b` times is failing `a` times and then `b` times. */
  lemma {:induction false} FailTimesSplit(p: Puzzle, a: nat, b: nat)
    requires Wf(p) && p.config.Some?
    ensures FailTimes(p, a + b) == FailTimes(FailTimes(p, a), b)
    decreases a
  {
    if a > 0 {
      FailTimesSplit(OnPuzzleFailed(p).0, a - 1, b);
    }
  }

  lemma ModSub(n: int, m: int)
    requires m > 0 && n >= m
    ensures n % m == (n - m) % m
  {
    var q := (n - m) / m;
    var r := (n - m) % m;
    assert n - m == q * m + r;
    assert n == (q + 1) * m + r;
    DivModUnique(n, q + 1, r, m);
  }

  lemma DivModUnique(x: int, d: int, r: int, m: int)
    requires m > 0 && 0 <= r < m && x == d * m + r
    ensures x % m == r
  {
    var k := d - x / m;
    assert k * m == x % m - r;
    assert k * m < m;
    assert (k - 1) * m < 0;
    assert k < 1;
    assert (k + 1) * m > 0;
    assert k > -1;
  }

  /** With no limit, failures only ever count up. */
  lemma {:induction false} FailuresUnlimited(p: Puzzle, n: nat)
    requires Wf(p) && p.config.Some? && MaxAttempts(p) <= 0
    ensures FailTimes(p, n).currentAttempts == p.currentAttempts + n
    decreases n
  {
    if n > 0 {
      FailuresUnlimited(OnPuzzleFailed(p).0, n - 1);
    }
  }

  /** A solved puzzle cannot be shown again, and answers to it are ignored. */
  lemma SolvedIsFinal(p: Puzzle, game: GS.GameState, inv: Option<Inv.Inventory>, answer: Answer, later: Answer)
    requires Wf(p) && p.isActive && !p.isSolved && ValidatePlayerInput(p.kind, answer)
    ensures var s := SubmitAnswer(p, game, inv, answer);
      ShowPuzzle(s.puzzle, s.game) == s.puzzle &&
      SubmitAnswer(s.puzzle, s.game, s.inv, later) == Step(s.puzzle, s.game, s.inv, [])
  {
  }
}
