/**
 * The puzzle registry (`PuzzleSystem`): puzzles keyed by id, first
 * registration winning, and a single "current" puzzle that showing and hiding
 * maintain. It reacts to the ShowPuzzle and HidePuzzle events.
 */
module PuzzleRegistry {
  import opened Wrappers
  import opened GameData
  import opened Puzzles
  import GS = GameStateData

  datatype System = System(registry: map<string, Puzzle>, current: Option<string>)

  /** The system and the events published by one call. */
  datatype SysStep = SysStep(sys: System, events: seq<Event>)

  /** Each entry is a well-formed puzzle stored under its own id, and the current puzzle is registered. */
  predicate Wf(s: System) {
    (forall k :: k in s.registry ==>
       Puzzles.Wf(s.registry[k]) && s.registry[k].config.Some? && Id(s.registry[k]) == k) &&
    (s.current.Some? ==> s.current.value in s.registry)
  }

  /** No registered puzzle is active except the current one. */
  predicate OnlyCurrentActive(s: System) {
    forall k :: k in s.registry && s.registry[k].isActive ==> s.current == Some(k)
  }

  /** A scene object that may hold a puzzle: None for a missing (null) entry. */
  type Candidate = Option<Puzzle>

  /** The candidate is a puzzle with a config, carrying the given id. */
  predicate Carries(c: Candidate, id: string) {
    c.Some? && c.value.config.Some? && Id(c.value) == id
  }

  /** Reference definition: the first candidate in the list that carries `id`. */
  function FirstWithId(cands: seq<Candidate>, id: string): (r: Option<Puzzle>)
    ensures r.Some? ==> Carries(Some(r.value), id) && Some(r.value) in cands
    ensures r.None? <==> forall i :: 0 <= i < |cands| ==> !Carries(cands[i], id)
  {
    if |cands| == 0 then None
    else if Carries(cands[0], id) then cands[0]
    else
      var r := FirstWithId(cands[1..], id);
      assert forall i :: 1 <= i < |cands| ==> cands[i] == cands[1..][i - 1];
      r
  }

  /** The registration loop from a given registry: skip missing and unconfigured puzzles and ids already taken. */
  function RegisterFrom(reg: map<string, Puzzle>, cands: seq<Candidate>): (r: map<string, Puzzle>)
    ensures forall id :: id in r <==> id in reg || FirstWithId(cands, id).Some?
    ensures forall id :: id in r ==> r[id] == if id in reg then reg[id] else FirstWithId(cands, id).value
    decreases |cands|
  {
    if |cands| == 0 then reg
    else
      var c := cands[0];
      var reg1 := if c.None? || c.value.config.None? || Id(c.value) in reg then reg
                  else reg[Id(c.value) := c.value];
      RegisterFrom(reg1, cands[1..])
  }

  /**
   * `RegisterPuzzles()`: a fresh registry holding, for each id, the first
   * configured puzzle carrying it; an absent or empty list registers nothing.
   */
  function RegisterPuzzles(puzzles: Option<seq<Candidate>>): (r: map<string, Puzzle>)
    ensures puzzles.None? ==> r == map[]
    ensures puzzles.Some? ==> forall id ::
      (id in r <==> FirstWithId(puzzles.value, id).Some?) &&
      (id in r ==> r[id] == FirstWithId(puzzles.value, id).value)
  {
    if puzzles.None? || |puzzles.value| == 0 then map[] else RegisterFrom(map[], puzzles.value)
  }

  /** The system right after `Awake`: the registry built, no current puzzle. */
  function Initial(puzzles: Option<seq<Candidate>>): (s: System)
    requires puzzles.Some? ==> forall i :: 0 <= i < |puzzles.value| && puzzles.value[i].Some? ==>
      Puzzles.Wf(puzzles.value[i].value)
    ensures Wf(s) && s.current.None?
  {
    System(RegisterPuzzles(puzzles), None)
  }

  /** A later duplicate never displaces the first puzzle registered under an id. */
  lemma FirstRegistrationWins(p: Puzzle, later: seq<Candidate>)
    requires p.config.Some?
    ensures var r := RegisterPuzzles(Some([Some(p)] + later));
      Id(p) in r && r[Id(p)] == p
  {
    assert ([Some(p)] + later)[0] == Some(p);
  }

  /** Hide the current puzzle if it is active (the first half of `ShowPuzzle`). */
  function HideActiveCurrent(s: System): (r: SysStep)
    requires Wf(s)
    ensures Wf(r.sys) && r.sys.current == s.current
    ensures s.current.None? || !s.registry[s.current.value].isActive ==> r == SysStep(s, [])
    ensures s.current.Some? && s.registry[s.current.value].isActive ==>
      var h := Puzzles.HidePuzzle(s.registry[s.current.value]);
      r == SysStep(s.(registry := s.registry[s.current.value := h.0]), h.1)
  {
    if s.current.Some? && s.registry[s.current.value].isActive then
      var h := Puzzles.HidePuzzle(s.registry[s.current.value]);
      SysStep(s.(registry := s.registry[s.current.value := h.0]), h.1)
    else SysStep(s, [])
  }

  /**
   * `ShowPuzzle(id)`: ignored for an empty or unregistered id; otherwise an
   * active current puzzle is hidden, the requested one becomes current and is
   * shown (which does nothing to it when the game already lists it as solved).
   */
  function ShowPuzzle(s: System, game: GS.GameState, id: string): (r: SysStep)
    requires Wf(s)
    ensures Wf(r.sys)
    ensures id == "" || id !in s.registry ==> r == SysStep(s, [])
    ensures id != "" && id in s.registry ==>
      var h := HideActiveCurrent(s);
      r.sys.current == Some(id) && r.events == h.events &&
      r.sys.registry == h.sys.registry[id := Puzzles.ShowPuzzle(h.sys.registry[id], game)]
    ensures OnlyCurrentActive(s) ==> OnlyCurrentActive(r.sys)
  {
    if id == "" || id !in s.registry then SysStep(s, [])
    else
      var h := HideActiveCurrent(s);
      var shown := Puzzles.ShowPuzzle(h.sys.registry[id], game);
      SysStep(System(h.sys.registry[id := shown], Some(id)), h.events)
  }

  /** `HideCurrentPuzzle()`: only an active current puzzle is hidden, and only then is `current` cleared. */
  function HideCurrentPuzzle(s: System): (r: SysStep)
    requires Wf(s)
    ensures Wf(r.sys)
    ensures s.current.None? || !s.registry[s.current.value].isActive ==> r == SysStep(s, [])
    ensures s.current.Some? && s.registry[s.current.value].isActive ==>
      r.sys.current.None? && s.current.value in r.sys.registry && !r.sys.registry[s.current.value].isActive &&
      r.events == [Event(GameData.HidePuzzle, Text(s.current.value))]
    ensures OnlyCurrentActive(s) ==> OnlyCurrentActive(r.sys) && forall k :: k in r.sys.registry ==> !r.sys.registry[k].isActive
  {
    if s.current.Some? && s.registry[s.current.value].isActive then
      var h := HideActiveCurrent(s);
      SysStep(h.sys.(current := None), h.events)
    else SysStep(s, [])
  }

  /**
   * `HidePuzzle(id)`: ignored for an empty or unregistered id and for a puzzle
   * that is not active; otherwise it is hidden, and `current` is cleared if
   * it was the current one.
   */
  function HidePuzzle(s: System, id: string): (r: SysStep)
    requires Wf(s)
    ensures Wf(r.sys)
    ensures id == "" || id !in s.registry || !s.registry[id].isActive ==> r == SysStep(s, [])
    ensures id != "" && id in s.registry && s.registry[id].isActive ==>
      var h := Puzzles.HidePuzzle(s.registry[id]);
      r.sys.registry == s.registry[id := h.0] && r.events == h.1 &&
      r.sys.current == (if s.current == Some(id) then None else s.current)
    ensures OnlyCurrentActive(s) ==> OnlyCurrentActive(r.sys)
  {
    if id == "" || id !in s.registry || !s.registry[id].isActive then SysStep(s, [])
    else
      var h := Puzzles.HidePuzzle(s.registry[id]);
      SysStep(System(s.registry[id := h.0], if s.current == Some(id) then None else s.current), h.1)
  }

  /** `ResetPuzzle(id)` of the system: resets a registered puzzle, ignores an unknown id. */
  function ResetPuzzle(s: System, id: string): (r: System)
    requires Wf(s)
    ensures Wf(r)
    ensures id !in s.registry ==> r == s
    ensures id in s.registry ==> r == s.(registry := s.registry[id := Puzzles.ResetPuzzle(s.registry[id])])
  {
    if id !in s.registry then s else s.(registry := s.registry[id := Puzzles.ResetPuzzle(s.registry[id])])
  }

  /** `OnShowPuzzleEvent(data)`: a string payload shows that puzzle; any other payload is ignored. */
  function OnShowPuzzleEvent(s: System, game: GS.GameState, data: Payload): (r: SysStep)
    requires Wf(s)
    ensures Wf(r.sys)
    ensures data.Text? ==> r == ShowPuzzle(s, game, data.text)
    ensures !data.Text? ==> r == SysStep(s, [])
  {
    if data.Text? then ShowPuzzle(s, game, data.text) else SysStep(s, [])
  }

  /** `OnHidePuzzleEvent(data)`: a string payload hides that puzzle; any other payload hides the current one. */
  function OnHidePuzzleEvent(s: System, data: Payload): (r: SysStep)
    requires Wf(s)
    ensures Wf(r.sys)
    ensures data.Text? ==> r == HidePuzzle(s, data.text)
    ensures !data.Text? ==> r == HideCurrentPuzzle(s)
  {
    if data.Text? then HidePuzzle(s, data.text) else HideCurrentPuzzle(s)
  }

  /**
   * Hiding a puzzle announces it, and the bus delivers that announcement back
   * to the system at once; by then the puzzle is inactive, so the echo changes
   * nothing and publishes nothing. Together with `EchoOfShowIsNoOp` this lets the
   * model leave the echo out of every system step.
   */
  lemma EchoOfHideIsNoOp(s: System, id: string)
    requires Wf(s)
    ensures var h := HidePuzzle(s, id);
      forall e :: e in h.events ==> OnHidePuzzleEvent(h.sys, e.payload) == SysStep(h.sys, [])
  {
  }

  /** The hide performed while showing another puzzle is echoed back as a no-op as well. */
  lemma EchoOfShowIsNoOp(s: System)
    requires Wf(s)
    ensures var h := HideActiveCurrent(s);
      forall e :: e in h.events ==> OnHidePuzzleEvent(h.sys, e.payload) == SysStep(h.sys, [])
  {
  }

  /**
   * A puzzle that hides itself (Escape, a close button, the delayed hide after
   * solving) is already inactive when its announcement arrives, so the system
   * keeps pointing at it as the current puzzle.
   */
  lemma SelfHideKeepsCurrent(s: System, id: string)
    requires Wf(s) && id in s.registry && s.current == Some(id)
    ensures var h := Puzzles.HidePuzzle(s.registry[id]);
      var s1 := s.(registry := s.registry[id := h.0]);
      OnHidePuzzleEvent(s1, Text(id)) == SysStep(s1, []) && s1.current == Some(id)
  {
  }

  /** A puzzle the game lists as solved is never re-entered through the system (the empty id is never shown at all). */
  lemma SolvedNotReentered(s: System, game: GS.GameState, id: string)
    requires Wf(s) && OnlyCurrentActive(s) && GS.IsPuzzleSolved(game, id)
    ensures var r := ShowPuzzle(s, game, id).sys;
      id != "" && id in r.registry ==> !r.registry[id].isActive
  {
    if id != "" && id in s.registry {
      var h := HideActiveCurrent(s);
      assert !h.sys.registry[id].isActive;
      assert Puzzles.ShowPuzzle(h.sys.registry[id], game) == h.sys.registry[id];
    }
  }
}
