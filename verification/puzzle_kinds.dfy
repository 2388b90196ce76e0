/**
 * What distinguishes the three puzzle kinds (`ButtonSequencePuzzle`,
 * `CodeInputPuzzle`, `ColorMatchPuzzle`): the solution each reads from its
 * config, the player's input buffer, and the answer check.
 */
module PuzzleKinds {
  import opened Wrappers
  import opened Text
  import PC = PuzzleConfig

  /** The untyped answer handed to `SubmitAnswer`, closed over the shapes the puzzles submit. */
  datatype Answer = Ints(ints: seq<int>) | Str(str: string) | Strs(strs: seq<string>)

  /** The kind-specific part of a puzzle. */
  datatype Kind =
    | ButtonState(playerSequence: seq<int>, solutionSequence: seq<int>)
      /** `inputField` is None when no input field is wired up. */
    | CodeState(inputField: Option<string>, correctCode: string)
    | ColorState(colorNames: seq<string>, playerColors: seq<string>, colorSolution: seq<string>)

  /** The player's buffer holds nothing. */
  predicate InputCleared(k: Kind) {
    match k
    case ButtonState(player, _) => player == []
    case CodeState(field, _) => field.None? || field.value == ""
    case ColorState(_, player, _) => player == []
  }

  /** The kinds differ only in their buffers. */
  predicate SameSolution(a: Kind, b: Kind) {
    match (a, b)
    case (ButtonState(_, s1), ButtonState(_, s2)) => s1 == s2
    case (CodeState(f1, c1), CodeState(f2, c2)) => c1 == c2 && f1.Some? == f2.Some?
    case (ColorState(n1, _, s1), ColorState(n2, _, s2)) => n1 == n2 && s1 == s2
    case _ => false
  }

  /** Element-by-element comparison, stopping at the first difference. */
  function SameInts(xs: seq<int>, ys: seq<int>): (same: bool)
    requires |xs| == |ys|
    ensures same <==> xs == ys
  {
    if |xs| == 0 then true
    else if xs[0] != ys[0] then false
    else
      var rest := SameInts(xs[1..], ys[1..]);
      assert xs == [xs[0]] + xs[1..] && ys == [ys[0]] + ys[1..];
      rest
  }

  /** Pairwise case-insensitive comparison, stopping at the first difference. */
  function SameIgnoringCase(xs: seq<string>, ys: seq<string>): (same: bool)
    requires |xs| == |ys|
    ensures same <==> forall i :: 0 <= i < |xs| ==> EqualsIgnoreCase(xs[i], ys[i])
  {
    if |xs| == 0 then true
    else if !EqualsIgnoreCase(xs[0], ys[0]) then false
    else
      var rest := SameIgnoringCase(xs[1..], ys[1..]);
      assert forall i :: 1 <= i < |xs| ==> xs[i] == xs[1..][i - 1] && ys[i] == ys[1..][i - 1];
      rest
  }

  /**
   * `ValidatePlayerInput`: a button answer must be an integer sequence equal
   * to the solution, a code answer a string equal to the code (case-sensitive),
   * a colour answer a string sequence matching the solution pairwise up to case.
   * An answer of any other shape is rejected.
   */
  function ValidatePlayerInput(k: Kind, a: Answer): (ok: bool)
    ensures k.ButtonState? ==> (ok <==> a.Ints? && a.ints == k.solutionSequence)
    ensures k.CodeState? ==> (ok <==> a.Str? && a.str == k.correctCode)
    ensures k.ColorState? ==>
      (ok <==> a.Strs? && |a.strs| == |k.colorSolution| &&
               forall i :: 0 <= i < |a.strs| ==> EqualsIgnoreCase(a.strs[i], k.colorSolution[i]))
  {
    match k
    case ButtonState(_, solution) =>
      a.Ints? && |a.ints| == |solution| && SameInts(a.ints, solution)
    case CodeState(_, code) =>
      a.Str? && a.str == code
    case ColorState(_, _, solution) =>
      a.Strs? && |a.strs| == |solution| && SameIgnoringCase(a.strs, solution)
  }

  /** The colour check is equality once both sides are lower-cased. */
  lemma ColorCheckIsLoweredEquality(names: seq<string>, player: seq<string>, solution: seq<string>)
    ensures ValidatePlayerInput(ColorState(names, player, solution), Strs(player)) <==>
      |player| == |solution| && forall i :: 0 <= i < |player| ==> Lowered(player[i]) == Lowered(solution[i])
  {
    forall i | 0 <= i < |player| && i < |solution| {
      EqualsIgnoreCaseLowered(player[i], solution[i]);
    }
  }

  /** An exact copy of the colour solution is always accepted. */
  lemma ColorCheckAcceptsSolution(names: seq<string>, player: seq<string>, solution: seq<string>)
    ensures ValidatePlayerInput(ColorState(names, player, solution), Strs(solution))
  {
  }

  /**
   * `SetupPuzzleUI()`: the solution is (re)read from the config; when it is
   * empty the method returns early and leaves the buffer as it was.
   */
  function SetupPuzzleUI(k: Kind, c: PC.Config): (r: Kind)
    ensures r.ButtonState? == k.ButtonState? && r.CodeState? == k.CodeState? && r.ColorState? == k.ColorState?
    ensures r.ButtonState? ==>
      r.solutionSequence == PC.GetButtonSequenceSolution(c) &&
      r.playerSequence == (if r.solutionSequence == [] then k.playerSequence else [])
    ensures r.CodeState? ==>
      r.correctCode == c.solution &&
      r.inputField == (if c.solution == "" || k.inputField.None? then k.inputField else Some(""))
    ensures r.ColorState? ==>
      r.colorSolution == PC.GetColorMatchSolution(c) && r.colorNames == k.colorNames &&
      r.playerColors == (if r.colorSolution == [] then k.playerColors else [])
  {
    match k
    case ButtonState(player, _) =>
      var solution := PC.GetButtonSequenceSolution(c);
      if |solution| == 0 then ButtonState(player, solution) else ButtonState([], solution)
    case CodeState(field, _) =>
      var code := PC.GetCodeInputSolution(c);
      if code == "" || field.None? then CodeState(field, code) else CodeState(Some(""), code)
    case ColorState(names, player, _) =>
      var solution := PC.GetColorMatchSolution(c);
      if |solution| == 0 then ColorState(names, player, solution) else ColorState(names, [], solution)
  }

  /**
   * `ResetPuzzleState()`, and likewise the buffer clear each kind schedules
   * after a failed answer: the buffer is emptied and nothing else changes.
   */
  function ResetPuzzleState(k: Kind): (r: Kind)
    ensures InputCleared(r) && SameSolution(k, r)
  {
    match k
    case ButtonState(_, solution) => ButtonState([], solution)
    case CodeState(field, code) => CodeState(if field.Some? then Some("") else None, code)
    case ColorState(names, _, solution) => ColorState(names, [], solution)
  }
}
