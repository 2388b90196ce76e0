/**
 * The input handlers of the three puzzle kinds: button clicks with automatic
 * submission, typed codes submitted trimmed, colour clicks with automatic
 * submission, and the clear buttons.
 */
module PuzzleInput {
  import opened Wrappers
  import opened Text
  import opened PuzzleKinds
  import opened Puzzles
  import GS = GameStateData
  import Inv = Inventory
  import PC = PuzzleConfig

  /** The input is ignored: the puzzle is not active, or already solved. */
  predicate Ignored(p: Puzzle) {
    !p.isActive || p.isSolved
  }

  /**
   * `OnButtonClicked(index)`: ignored unless active and unsolved; otherwise the
   * index is appended (no range check), and once the buffer is as long as the
   * solution it is submitted.
   */
  function OnButtonClicked(p: Puzzle, game: GS.GameState, inv: Option<Inv.Inventory>, index: int): (r: Step)
    requires Wf(p) && p.kind.ButtonState?
    ensures Wf(r.puzzle)
    ensures Ignored(p) ==> r == Step(p, game, inv, [])
    ensures !Ignored(p) ==>
      var buffer := p.kind.playerSequence + [index];
      var q := p.(kind := p.kind.(playerSequence := buffer));
      (|buffer| >= |p.kind.solutionSequence| ==> r == SubmitAnswer(q, game, inv, Ints(buffer))) &&
      (|buffer| < |p.kind.solutionSequence| ==> r == Step(q, game, inv, []))
  {
    if Ignored(p) then Step(p, game, inv, [])
    else
      var buffer := p.kind.playerSequence + [index];
      var q := p.(kind := p.kind.(playerSequence := buffer));
      if |buffer| >= |p.kind.solutionSequence| then SubmitAnswer(q, game, inv, Ints(buffer))
      else Step(q, game, inv, [])
  }

  /** Clicking the solution's buttons in order, starting from an empty buffer, solves the puzzle. */
  lemma {:induction false} ClickingSolutionSolves(p: Puzzle, game: GS.GameState, inv: Option<Inv.Inventory>)
    requires Wf(p) && p.kind.ButtonState? && p.isActive && !p.isSolved
    requires p.kind.playerSequence == [] && |p.kind.solutionSequence| > 0
    ensures ClickAll(p, game, inv, p.kind.solutionSequence).puzzle.isSolved
  {
    ClickPrefix(p, game, inv, p.kind.solutionSequence, p.kind.solutionSequence);
  }

  /** The outcome of clicking the given buttons one after the other. */
  function ClickAll(p: Puzzle, game: GS.GameState, inv: Option<Inv.Inventory>, clicks: seq<int>): (r: Step)
    requires Wf(p) && p.kind.ButtonState?
    ensures Wf(r.puzzle) && r.puzzle.kind.ButtonState?
    decreases |clicks|
  {
    if |clicks| == 0 then Step(p, game, inv, [])
    else
      var s := OnButtonClicked(p, game, inv, clicks[0]);
      var rest := ClickAll(s.puzzle, s.game, s.inv, clicks[1..]);
      Step(rest.puzzle, rest.game, rest.inv, s.events + rest.events)
  }

  lemma {:induction false} ClickPrefix(p: Puzzle, game: GS.GameState, inv: Option<Inv.Inventory>, clicks: seq<int>, solution: seq<int>)
    requires Wf(p) && p.kind.ButtonState? && p.isActive && !p.isSolved
    requires p.kind.solutionSequence == solution && |clicks| > 0
    requires p.kind.playerSequence + clicks == solution
    ensures ClickAll(p, game, inv, clicks).puzzle.isSolved
    decreases |clicks|
  {
    var buffer := p.kind.playerSequence + [clicks[0]];
    var s := OnButtonClicked(p, game, inv, clicks[0]);
    if |clicks| == 1 {
      assert buffer == solution;
      assert ClickAll(s.puzzle, s.game, s.inv, []).puzzle == s.puzzle;
    } else {
      assert buffer + clicks[1..] == solution;
      assert |buffer| < |solution|;
      ClickPrefix(s.puzzle, s.game, s.inv, clicks[1..], solution);
    }
  }

  /** The button puzzle's `ClearSequence()`: ignored unless active and unsolved; empties the buffer. */
  function ClearButtonSequence(p: Puzzle): (r: Puzzle)
    requires p.kind.ButtonState?
    ensures Ignored(p) ==> r == p
    ensures !Ignored(p) ==> r == p.(kind := p.kind.(playerSequence := []))
  {
    if Ignored(p) then p else p.(kind := p.kind.(playerSequence := []))
  }

  /** The player edits the input field (when there is one). */
  function TypeCode(p: Puzzle, text: string): (r: Puzzle)
    requires p.kind.CodeState?
    ensures r.kind.CodeState? && r.kind.correctCode == p.kind.correctCode
    ensures p.kind.inputField.Some? ==> r.kind.inputField == Some(text)
    ensures p.kind.inputField.None? ==> r == p
  {
    if p.kind.inputField.Some? then p.(kind := p.kind.(inputField := Some(text))) else p
  }

  /**
   * `OnSubmitClicked()`: ignored unless active and unsolved, and when there is
   * no input field; the typed text is trimmed and, when something is left,
   * submitted. Nothing empty after trimming is ever submitted.
   */
  function OnSubmitClicked(p: Puzzle, game: GS.GameState, inv: Option<Inv.Inventory>): (r: Step)
    requires Wf(p) && p.kind.CodeState?
    ensures Wf(r.puzzle)
    ensures Ignored(p) || p.kind.inputField.None? ==> r == Step(p, game, inv, [])
    ensures !Ignored(p) && p.kind.inputField.Some? ==>
      var code := Trim(p.kind.inputField.value);
      (code == "" ==> r == Step(p, game, inv, [])) &&
      (code != "" ==> r == SubmitAnswer(p, game, inv, Str(code)))
  {
    if Ignored(p) || p.kind.inputField.None? then Step(p, game, inv, [])
    else
      var code := Trim(p.kind.inputField.value);
      if code == "" then Step(p, game, inv, []) else SubmitAnswer(p, game, inv, Str(code))
  }

  /**
   * A code whose authored solution starts or ends with whitespace can never be
   * solved from the input field: what is submitted is always trimmed, and the
   * check compares it with the untrimmed solution.
   */
  lemma PaddedCodeNeverSolves(p: Puzzle, game: GS.GameState, inv: Option<Inv.Inventory>, text: string)
    requires Wf(p) && p.kind.CodeState? && !Trimmed(p.kind.correctCode)
    ensures !OnSubmitClicked(TypeCode(p, text), game, inv).puzzle.isSolved || p.isSolved
  {
  }

  /**
   * The editor accepts the code " 42 " without a warning, because its numeric
   * check allows surrounding whitespace, yet a puzzle with that code can never
   * be solved from the input field.
   */
  lemma PaddedCodeValidatesButNeverSolves(c: PC.Config, assetName: string, p: Puzzle,
                                          game: GS.GameState, inv: Option<Inv.Inventory>, text: string)
    requires c.puzzleType == PC.CodeInput && c.solution == " 42 "
    requires Wf(p) && p.kind.CodeState? && p.kind.correctCode == PC.GetCodeInputSolution(c)
    ensures PC.OnValidate(c, assetName).warning.None?
    ensures !OnSubmitClicked(TypeCode(p, text), game, inv).puzzle.isSolved || p.isSolved
  {
    PC.PaddedCodeValidates(c, assetName);
    PaddedCodeNeverSolves(p, game, inv, text);
  }

  /**
   * A non-empty code that passes the stricter check can be typed into the code
   * field, and of everything the field accepts, exactly that code solves the
   * puzzle.
   */
  lemma UsableCodeSolves(c: PC.Config, p: Puzzle, game: GS.GameState, inv: Option<Inv.Inventory>, text: string)
    requires PC.UsableCodeSolution(c.solution) && c.solution != ""
    requires Wf(p) && p.kind.CodeState? && p.kind.inputField.Some? && p.isActive && !p.isSolved
    requires p.kind.correctCode == PC.GetCodeInputSolution(c)
    requires PC.IntegerFieldText(text)
    ensures PC.IntegerFieldText(c.solution)
    ensures OnSubmitClicked(TypeCode(p, text), game, inv).puzzle.isSolved <==> text == c.solution
  {
    FieldTextTrimmed(text);
    TypedCodeSolvesIff(p, game, inv, text);
  }

  /** Text that trimming leaves as it is solves a non-empty code exactly when it is that code. */
  lemma TypedCodeSolvesIff(p: Puzzle, game: GS.GameState, inv: Option<Inv.Inventory>, text: string)
    requires Wf(p) && p.kind.CodeState? && p.kind.inputField.Some? && p.isActive && !p.isSolved
    requires p.kind.correctCode != "" && Trim(text) == text
    ensures OnSubmitClicked(TypeCode(p, text), game, inv).puzzle.isSolved <==> text == p.kind.correctCode
  {
    var q := TypeCode(p, text);
    assert q.kind.inputField == Some(text) && !Ignored(q);
    if text != "" {
      assert ValidatePlayerInput(q.kind, Str(text)) <==> text == p.kind.correctCode;
    }
  }

  /** What the code field accepts has no whitespace, so trimming leaves it as typed. */
  lemma FieldTextTrimmed(text: string)
    requires PC.IntegerFieldText(text)
    ensures Trim(text) == text
  {
    if |text| > 0 {
      var first, last := text[0], text[|text| - 1];
      assert IsDigit(first) || first == '-';
      assert IsDigit(last) || last == '-';
      assert !IsWhite(first) && !IsWhite(last);
    }
    assert Trimmed(text);
  }

  /** Typing the solution, with any surrounding whitespace, solves an active code puzzle whose solution is trimmed and non-empty. */
  lemma TypedSolutionSolves(p: Puzzle, game: GS.GameState, inv: Option<Inv.Inventory>, pad: string)
    requires Wf(p) && p.kind.CodeState? && p.kind.inputField.Some? && p.isActive && !p.isSolved
    requires Trimmed(p.kind.correctCode) && p.kind.correctCode != ""
    requires forall i :: 0 <= i < |pad| ==> IsWhite(pad[i])
    ensures OnSubmitClicked(TypeCode(p, pad + p.kind.correctCode + pad), game, inv).puzzle.isSolved
  {
    TrimPadded(pad, p.kind.correctCode, pad);
  }

  /** `OnClearClicked()`: ignored unless active and unsolved; empties the input field. */
  function OnClearClicked(p: Puzzle): (r: Puzzle)
    requires p.kind.CodeState?
    ensures Ignored(p) ==> r == p
    ensures r.kind.CodeState? && r.kind.correctCode == p.kind.correctCode
    ensures !Ignored(p) ==> InputCleared(r.kind) && r == p.(kind := r.kind)
  {
    if Ignored(p) || p.kind.inputField.None? then p else p.(kind := p.kind.(inputField := Some("")))
  }

  /**
   * `OnColorButtonClicked(index)`: ignored unless active and unsolved or when
   * the index names no colour; otherwise that colour's name is appended, and
   * once the buffer is as long as the solution it is submitted.
   */
  function OnColorButtonClicked(p: Puzzle, game: GS.GameState, inv: Option<Inv.Inventory>, index: int): (r: Step)
    requires Wf(p) && p.kind.ColorState?
    ensures Wf(r.puzzle)
    ensures Ignored(p) || index < 0 || index >= |p.kind.colorNames| ==> r == Step(p, game, inv, [])
    ensures !Ignored(p) && 0 <= index < |p.kind.colorNames| ==>
      var buffer := p.kind.playerColors + [p.kind.colorNames[index]];
      var q := p.(kind := p.kind.(playerColors := buffer));
      (|buffer| >= |p.kind.colorSolution| ==> r == SubmitAnswer(q, game, inv, Strs(buffer))) &&
      (|buffer| < |p.kind.colorSolution| ==> r == Step(q, game, inv, []))
  {
    if Ignored(p) || index < 0 || index >= |p.kind.colorNames| then Step(p, game, inv, [])
    else
      var buffer := p.kind.playerColors + [p.kind.colorNames[index]];
      var q := p.(kind := p.kind.(playerColors := buffer));
      if |buffer| >= |p.kind.colorSolution| then SubmitAnswer(q, game, inv, Strs(buffer))
      else Step(q, game, inv, [])
  }

  /** The outcome of clicking the given colour buttons one after the other. */
  function ColorClickAll(p: Puzzle, game: GS.GameState, inv: Option<Inv.Inventory>, clicks: seq<int>): (r: Step)
    requires Wf(p) && p.kind.ColorState?
    ensures Wf(r.puzzle) && r.puzzle.kind.ColorState?
    decreases |clicks|
  {
    if |clicks| == 0 then Step(p, game, inv, [])
    else
      var s := OnColorButtonClicked(p, game, inv, clicks[0]);
      var rest := ColorClickAll(s.puzzle, s.game, s.inv, clicks[1..]);
      Step(rest.puzzle, rest.game, rest.inv, s.events + rest.events)
  }

  /**
   * Starting from an empty buffer, clicking buttons whose colour names match
   * the solution's names in order, up to case, solves the puzzle. A solution
   * colour that matches no button name can therefore never be entered.
   */
  lemma ColorClickingSolutionSolves(p: Puzzle, game: GS.GameState, inv: Option<Inv.Inventory>, clicks: seq<int>)
    requires Wf(p) && p.kind.ColorState? && p.isActive && !p.isSolved
    requires p.kind.playerColors == [] && |clicks| == |p.kind.colorSolution| > 0
    requires forall i :: 0 <= i < |clicks| ==>
      0 <= clicks[i] < |p.kind.colorNames| && EqualsIgnoreCase(p.kind.colorNames[clicks[i]], p.kind.colorSolution[i])
    ensures ColorClickAll(p, game, inv, clicks).puzzle.isSolved
  {
    assert |p.kind.playerColors| == 0;
    ColorClickPrefix(p, game, inv, clicks);
  }

  lemma {:induction false} ColorClickPrefix(p: Puzzle, game: GS.GameState, inv: Option<Inv.Inventory>, clicks: seq<int>)
    requires Wf(p) && p.kind.ColorState? && p.isActive && !p.isSolved
    requires |clicks| > 0 && |p.kind.playerColors| + |clicks| == |p.kind.colorSolution|
    requires forall i :: 0 <= i < |p.kind.playerColors| ==>
      EqualsIgnoreCase(p.kind.playerColors[i], p.kind.colorSolution[i])
    requires forall i :: 0 <= i < |clicks| ==>
      0 <= clicks[i] < |p.kind.colorNames| &&
      EqualsIgnoreCase(p.kind.colorNames[clicks[i]], p.kind.colorSolution[|p.kind.playerColors| + i])
    ensures ColorClickAll(p, game, inv, clicks).puzzle.isSolved
    decreases |clicks|
  {
    var s := OnColorButtonClicked(p, game, inv, clicks[0]);
    var buffer := p.kind.playerColors + [p.kind.colorNames[clicks[0]]];
    assert forall i :: 0 <= i < |buffer| ==> EqualsIgnoreCase(buffer[i], p.kind.colorSolution[i]) by {
      forall i | 0 <= i < |buffer| ensures EqualsIgnoreCase(buffer[i], p.kind.colorSolution[i]) {
        if i == |p.kind.playerColors| { assert buffer[i] == p.kind.colorNames[clicks[0]]; }
      }
    }
    if |clicks| == 1 {
      assert ColorClickAll(s.puzzle, s.game, s.inv, []).puzzle == s.puzzle;
    } else {
      assert s.puzzle.kind.playerColors == buffer;
      forall i | 0 <= i < |clicks[1..]|
        ensures EqualsIgnoreCase(p.kind.colorNames[clicks[1..][i]], p.kind.colorSolution[|buffer| + i])
      {
        assert clicks[1..][i] == clicks[i + 1];
      }
      ColorClickPrefix(s.puzzle, s.game, s.inv, clicks[1..]);
    }
  }

  /** The colour puzzle's `ClearSequence()`: ignored unless active and unsolved; empties the buffer. */
  function ClearColorSequence(p: Puzzle): (r: Puzzle)
    requires p.kind.ColorState?
    ensures Ignored(p) ==> r == p
    ensures !Ignored(p) ==> r == p.(kind := p.kind.(playerColors := [])) && InputCleared(r.kind)
  {
    if Ignored(p) then p else p.(kind := p.kind.(playerColors := []))
  }
}
