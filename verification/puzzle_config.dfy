/**
 * The designer-authored description of a puzzle (`PuzzleConfig`) and the three
 * readings of its solution string: comma-separated integers, a literal code,
 * and comma-separated colour names.
 */
module PuzzleConfig {
  import opened Wrappers
  import opened GameData
  import opened Text

  datatype PuzzleType = ButtonSequence | CodeInput | ColorMatch

  datatype Config = Config(
    puzzleID: string,
    puzzleName: string,
    description: string,
    puzzleType: PuzzleType,
    difficulty: int,
    solution: string,
    /** Failures before the puzzle resets; 0 means unlimited. */
    maxAttempts: int,
    /** Seconds allowed; 0 means no limit. */
    timeLimit: real,
    rewardItem: Option<ItemData>,
    successEvent: string)

  /** The editor warnings `OnValidate` may log. */
  datatype Warning = NotIntegerList | NotNumeric | NotCommaSeparated

  /** All the values when every entry is present; otherwise nothing, never a partial list. */
  function AllPresent<T>(xs: seq<Option<T>>): (r: Option<seq<T>>)
    ensures r.Some? <==> forall i :: 0 <= i < |xs| ==> xs[i].Some?
    ensures r.Some? ==> |r.value| == |xs| && forall i :: 0 <= i < |xs| ==> Some(r.value[i]) == xs[i]
  {
    if |xs| == 0 then Some([])
    else
      var tail := AllPresent(xs[1..]);
      if xs[0].Some? && tail.Some? then
        assert forall i :: 1 <= i < |xs| ==> xs[i] == xs[1..][i - 1];
        Some([xs[0].value] + tail.value)
      else
        assert exists i :: 0 <= i < |xs| && xs[i].None? by {
          if xs[0].Some? {
            var i :| 0 <= i < |xs[1..]| && xs[1..][i].None?;
            assert xs[1..][i] == xs[i + 1];
          }
        }
        None
  }

  /** Each part, already trimmed, read on its own by `int.Parse`. */
  function ParseEach(parts: seq<string>): (r: seq<Option<int>>)
    ensures |r| == |parts|
    ensures forall i :: 0 <= i < |parts| ==> r[i] == IntParse(parts[i])
  {
    if |parts| == 0 then [] else [IntParse(parts[0])] + ParseEach(parts[1..])
  }

  /** The all-or-nothing parse of a list of trimmed parts. */
  function ParseAll(parts: seq<string>): Option<seq<int>> {
    AllPresent(ParseEach(parts))
  }

  /**
   * `GetButtonSequenceSolution()`: the solution's comma-separated parts, each
   * trimmed of every white-space character and then parsed; an empty solution
   * or any unparsable part gives the empty sequence.
   */
  function GetButtonSequenceSolution(c: Config): (r: seq<int>)
    ensures c.solution == "" ==> r == []
    ensures var parts := Split(c.solution, ',');
      c.solution != "" && ParseAll(TrimAll(parts)).Some? ==>
        |r| == Count(c.solution, ',') + 1 &&
        forall i :: 0 <= i < |r| ==> Some(r[i]) == IntParse(Trim(parts[i]))
    ensures ParseAll(TrimAll(Split(c.solution, ','))).None? ==> r == []
  {
    if c.solution == "" then []
    else
      var parts := Split(c.solution, ',');
      ParseAllTrimmed(parts);
      ParseAll(TrimAll(parts)).GetOr([])
  }

  /** On success, number i is part i trimmed and parsed. */
  lemma ParseAllTrimmed(parts: seq<string>)
    ensures var r := ParseAll(TrimAll(parts));
      r.Some? ==> |r.value| == |parts| && forall i :: 0 <= i < |parts| ==> Some(r.value[i]) == IntParse(Trim(parts[i]))
  {
    var t := TrimAll(parts);
    var e := ParseEach(t);
    assert forall i :: 0 <= i < |parts| ==> e[i] == IntParse(Trim(parts[i]));
  }

  /** `GetCodeInputSolution()`: the solution exactly as authored, surrounding whitespace included. */
  function GetCodeInputSolution(c: Config): (r: string)
    ensures r == c.solution
  {
    c.solution
  }

  /** Trim every part. */
  function TrimAll(parts: seq<string>): (r: seq<string>)
    ensures |r| == |parts|
    ensures forall i :: 0 <= i < |r| ==> r[i] == Trim(parts[i])
  {
    if |parts| == 0 then [] else [Trim(parts[0])] + TrimAll(parts[1..])
  }

  /** `GetColorMatchSolution()`: one trimmed token per comma-separated part, none dropped; empty for an empty solution. */
  function GetColorMatchSolution(c: Config): (r: seq<string>)
    ensures c.solution == "" ==> r == []
    ensures c.solution != "" ==> |r| == Count(c.solution, ',') + 1
    ensures c.solution != "" ==> forall i :: 0 <= i < |r| ==> r[i] == Trim(Split(c.solution, ',')[i])
    ensures forall i :: 0 <= i < |r| ==> Trimmed(r[i]) && ',' !in r[i]
  {
    if c.solution == "" then []
    else
      var parts := Split(c.solution, ',');
      var r := TrimAll(parts);
      assert forall i :: 0 <= i < |r| ==> ',' !in r[i] by {
        forall i | 0 <= i < |r| ensures ',' !in r[i] {
          var i0, j0 :| WhiteOutside(AnyWhiteSpace, parts[i], i0, j0) && r[i] == parts[i][i0..j0];
        }
      }
      r
  }

  /** The result of `OnValidate(assetName)`: the updated config and the warning it logged, if any. */
  datatype Validated = Validated(config: Config, warning: Option<Warning>)

  /**
   * `OnValidate()`: the id is reset to the asset name, and the solution is
   * checked against the shape its puzzle type expects.
   */
  function OnValidate(c: Config, assetName: string): (r: Validated)
    ensures r.config == c.(puzzleID := assetName)
    ensures c.puzzleType == ButtonSequence ==>
      (r.warning.Some? <==> c.solution != "" && GetButtonSequenceSolution(c) == [])
    ensures c.puzzleType == CodeInput ==>
      (r.warning.Some? <==> c.solution != "" && IntParse(c.solution).None?)
    ensures c.puzzleType == ColorMatch ==>
      (r.warning.Some? <==> c.solution != "" && ',' !in c.solution)
  {
    var c1 := if c.puzzleID == "" || c.puzzleID != assetName then c.(puzzleID := assetName) else c;
    var warning :=
      match c.puzzleType
      case ButtonSequence =>
        if c.solution != "" && ParseAll(TrimAll(Split(c.solution, ','))).None? then Some(NotIntegerList) else None
      case CodeInput =>
        if c.solution != "" && IntParse(c.solution).None? then Some(NotNumeric) else None
      case ColorMatch =>
        if c.solution != "" && ',' !in c.solution then Some(NotCommaSeparated) else None;
    Validated(c1, warning)
  }

  /**
   * What the code field lets the player type: its content type is
   * `IntegerNumber` (CodeInputPuzzle.cs:106), so only decimal digits, with a
   * minus sign allowed in first position.
   */
  predicate IntegerFieldText(s: string) {
    forall i :: 0 <= i < |s| ==> IsDigit(s[i]) || (i == 0 && s[i] == '-')
  }

  /**
   * The check a code solution needs for the code puzzle to be solvable: a
   * number the code field can produce, so without surrounding whitespace and
   * without a plus sign. It is stricter than the editor's check.
   */
  function UsableCodeSolution(solution: string): (ok: bool)
    ensures ok ==> IntegerFieldText(solution) && Trimmed(solution)
    ensures ok && solution != "" ==> IntParse(solution).Some?
  {
    IntegerFieldText(solution) && (solution == "" || ParseInt32(solution).Some?)
  }

  /** Every code solution the stricter check accepts, the editor's check accepts too. */
  lemma UsableCodeSolutionValidates(c: Config, assetName: string)
    requires c.puzzleType == CodeInput && UsableCodeSolution(c.solution)
    ensures OnValidate(c, assetName).warning.None?
  {
  }

  /** The editor's numeric check lets a code with surrounding whitespace through. */
  lemma PaddedCodeValidates(c: Config, assetName: string)
    requires c.puzzleType == CodeInput && c.solution == " 42 "
    ensures OnValidate(c, assetName).warning.None?
  {
    assert " " + "42" + " " == c.solution;
    assert TrimmedBy(NumberWhiteSpace, "42") && IsNumberWhite(" "[0]);
    IntParsePadded(" ", "42", " ");
    FortyTwoParses();
  }

  /**
   * A button part padded with a no-break space still reads as its number,
   * because each part is trimmed of every white-space character first:
   * "\u00A01,2" is the sequence 1, 2 and the editor raises no warning.
   */
  lemma NoBreakSpaceButtonSolution(c: Config, assetName: string)
    requires c.puzzleType == ButtonSequence && c.solution == "\U{00A0}1,2"
    ensures GetButtonSequenceSolution(c) == [1, 2]
    ensures OnValidate(c, assetName).warning.None?
  {
    NoBreakSpaceSplit();
    NoBreakSpaceParts();
  }

  lemma NoBreakSpaceSplit()
    ensures Split("\U{00A0}1,2", ',') == ["\U{00A0}1", "2"]
  {
    var parts := ["\U{00A0}1", "2"];
    assert Join(parts[1..], ',') == "2";
    assert Join(parts, ',') == "\U{00A0}1,2";
    SplitJoin(parts, ',');
  }

  lemma NoBreakSpaceParts()
    ensures ParseAll(TrimAll(["\U{00A0}1", "2"])) == Some([1, 2])
  {
    var a, b := "\U{00A0}1", "2";
    assert "\U{00A0}" + "1" + "" == a;
    assert Trimmed("1") && Trimmed(b);
    TrimPadded("\U{00A0}", "1", "");
    var t := TrimAll([a, b]);
    assert [a, b][0] == a && [a, b][1] == b;
    PairOf(t, "1", "2");
    OneTwoParse();
    ParseTwo("1", "2", 1, 2);
  }

  lemma PairOf<T>(r: seq<T>, x: T, y: T)
    requires |r| == 2 && r[0] == x && r[1] == y
    ensures r == [x, y]
  {
  }

  /** Two parts that each read as a number read as the pair. */
  lemma ParseTwo(a: string, b: string, x: int, y: int)
    requires IntParse(a) == Some(x) && IntParse(b) == Some(y)
    ensures ParseAll([a, b]) == Some([x, y])
  {
    assert ParseAll([]) == Some([]);
    ParseAllCons(b, [], y, []);
    assert [b] + [] == [b] && [y] + [] == [y];
    ParseAllCons(a, [b], x, [y]);
    assert [a] + [b] == [a, b] && [x] + [y] == [x, y];
  }

  lemma OneTwoParse()
    ensures IntParse("1") == Some(1) && IntParse("2") == Some(2)
  {
    assert Trimmed("1") && Trimmed("2");
    assert "1"[..0] == "" && "2"[..0] == "";
    assert AllDigits("1") && IntSyntax("1") && DigitsValue("1") == 1;
    assert AllDigits("2") && IntSyntax("2") && DigitsValue("2") == 2;
  }

  /** Validating twice changes nothing more than validating once. */
  lemma OnValidateIdempotent(c: Config, assetName: string)
    ensures var once := OnValidate(c, assetName);
      OnValidate(once.config, assetName) == once
  {
  }

  // ------------------------------------------------------------ Round trips

  /** The comma-separated rendering of a list of integers. */
  function FormatList(xs: seq<int>): (parts: seq<string>)
    ensures |parts| == |xs|
    ensures forall i :: 0 <= i < |xs| ==> parts[i] == FormatInt(xs[i])
  {
    if |xs| == 0 then [] else [FormatInt(xs[0])] + FormatList(xs[1..])
  }

  lemma FormatIntShape(n: int)
    ensures ',' !in FormatInt(n) && Trimmed(FormatInt(n)) && FormatInt(n) != ""
  {
    var s := FormatInt(n);
    var d := if n < 0 then Digits(-n) else Digits(n);
    assert forall i :: 0 <= i < |d| ==> IsDigit(d[i]);
    if n < 0 { assert s[1..] == d; assert s[|s| - 1] == d[|d| - 1]; }
    assert forall i :: 0 <= i < |s| ==> s[i] == '-' || IsDigit(s[i]);
  }

  /** A rendered 32-bit integer is comma-free and reads back, untrimmed or trimmed, as itself. */
  lemma FormatIntParses(n: int)
    requires Int32Min <= n <= Int32Max
    ensures ',' !in FormatInt(n) && FormatInt(n) != ""
    ensures IntParse(FormatInt(n)) == Some(n)
  {
    FormatIntShape(n);
    ParseFormat(n);
  }

  /** A rendered integer has no white space to trim. */
  lemma FormatIntTrimmed(n: int)
    ensures Trim(FormatInt(n)) == FormatInt(n)
  {
    FormatIntShape(n);
  }

  /** The rendered list splits back into its parts, and its text is not empty. */
  lemma FormatListSplits(xs: seq<int>)
    requires |xs| > 0
    requires forall i :: 0 <= i < |xs| ==> Int32Min <= xs[i] <= Int32Max
    ensures Split(Join(FormatList(xs), ','), ',') == FormatList(xs)
    ensures Join(FormatList(xs), ',') != ""
  {
    var parts := FormatList(xs);
    forall i | 0 <= i < |parts| ensures ',' !in parts[i] {
      FormatIntParses(xs[i]);
    }
    SplitJoin(parts, ',');
    FormatIntParses(xs[0]);
    if |parts| > 1 {
      assert Join(parts, ',') == parts[0] + [','] + Join(parts[1..], ',');
    }
  }

  /** The rendered parts all parse, and to the original integers. */
  lemma {:induction false} FormatListParses(xs: seq<int>)
    requires forall i :: 0 <= i < |xs| ==> Int32Min <= xs[i] <= Int32Max
    ensures ParseAll(FormatList(xs)) == Some(xs)
  {
    if |xs| > 0 {
      var rest := FormatList(xs[1..]);
      assert FormatList(xs) == [FormatInt(xs[0])] + rest;
      FormatIntParses(xs[0]);
      ParseEachCons(FormatInt(xs[0]), rest);
      FormatListParses(xs[1..]);
      AllPresentCons(xs[0], ParseEach(rest), xs[1..]);
      assert xs == [xs[0]] + xs[1..];
    }
  }

  lemma ParseEachCons(p: string, ps: seq<string>)
    ensures ParseEach([p] + ps) == [IntParse(p)] + ParseEach(ps)
  {
    assert ([p] + ps)[1..] == ps;
  }

  /** One more part that reads as a number extends the list read so far. */
  lemma ParseAllCons(p: string, ps: seq<string>, x: int, xs: seq<int>)
    requires IntParse(p) == Some(x) && ParseAll(ps) == Some(xs)
    ensures ParseAll([p] + ps) == Some([x] + xs)
  {
    ParseEachCons(p, ps);
    AllPresentCons(x, ParseEach(ps), xs);
  }

  lemma AllPresentCons<T>(x: T, ys: seq<Option<T>>, t: seq<T>)
    requires AllPresent(ys) == Some(t)
    ensures AllPresent([Some(x)] + ys) == Some([x] + t)
  {
    assert ([Some(x)] + ys)[1..] == ys;
  }

  /** Authoring a button solution by joining 32-bit integers with commas makes it parse back to them. */
  lemma ButtonSolutionRoundTrip(c: Config, xs: seq<int>)
    requires |xs| > 0
    requires forall i :: 0 <= i < |xs| ==> Int32Min <= xs[i] <= Int32Max
    requires c.solution == Join(FormatList(xs), ',')
    ensures GetButtonSequenceSolution(c) == xs
  {
    FormatListSplits(xs);
    FormatListTrimmed(xs);
    FormatListParses(xs);
  }

  /** Rendered numbers carry no white space, so trimming the parts keeps them. */
  lemma FormatListTrimmed(xs: seq<int>)
    requires forall i :: 0 <= i < |xs| ==> Int32Min <= xs[i] <= Int32Max
    ensures TrimAll(FormatList(xs)) == FormatList(xs)
  {
    var parts := FormatList(xs);
    forall i | 0 <= i < |parts| ensures Trim(parts[i]) == parts[i] {
      FormatIntTrimmed(xs[i]);
    }
  }

  /** Authoring a colour solution by joining trimmed, comma-free names gives back exactly those names. */
  lemma ColorSolutionRoundTrip(c: Config, names: seq<string>)
    requires |names| > 0 && c.solution != ""
    requires forall i :: 0 <= i < |names| ==> ',' !in names[i] && Trimmed(names[i])
    requires c.solution == Join(names, ',')
    ensures GetColorMatchSolution(c) == names
  {
    SplitJoin(names, ',');
  }
}
