/**
 * The string services of the .NET library that the game relies on, written out:
 * `String.Split(char)`, `String.Trim()`, `int.Parse` and ordinal case-insensitive
 * comparison. `Trim` removes every `Char.IsWhiteSpace` character, `int.Parse`
 * skips the six ASCII whitespace characters and accepts an optional sign and
 * decimal digits within the 32-bit range, and case folding is ASCII only.
 */
module Text {
  import opened Wrappers

  // ---------------------------------------------------------------- Splitting

  /** Number of occurrences of `c` in `s`. */
  function Count(s: string, c: char): nat
  {
    if |s| == 0 then 0 else (if s[0] == c then 1 else 0) + Count(s[1..], c)
  }

  /** `s.Split(sep)`: every piece between separators, empty pieces kept. */
  function Split(s: string, sep: char): (parts: seq<string>)
    ensures |parts| == Count(s, sep) + 1
    ensures forall i :: 0 <= i < |parts| ==> sep !in parts[i]
  {
    if |s| == 0 then [""]
    else
      var rest := Split(s[1..], sep);
      if s[0] == sep then [""] + rest
      else
        var first := [s[0]] + rest[0];
        assert sep !in rest[0];
        assert sep !in first;
        [first] + rest[1..]
  }

  /** `String.Join(sep, parts)`. */
  function Join(parts: seq<string>, sep: char): string
  {
    if |parts| == 0 then ""
    else if |parts| == 1 then parts[0]
    else parts[0] + [sep] + Join(parts[1..], sep)
  }

  /** Joining the pieces back with the separator restores the original string. */
  lemma {:induction false} JoinSplit(s: string, sep: char)
    ensures Join(Split(s, sep), sep) == s
  {
    if |s| > 0 {
      var rest := Split(s[1..], sep);
      JoinSplit(s[1..], sep);
      assert s == [s[0]] + s[1..];
      if s[0] != sep && |rest| > 1 {
        assert Join(rest, sep) == rest[0] + [sep] + Join(rest[1..], sep);
        assert ([[s[0]] + rest[0]] + rest[1..])[1..] == rest[1..];
      }
    }
  }

  /** A string without the separator splits into itself alone. */
  lemma {:induction false} SplitNoSeparator(p: string, sep: char)
    requires sep !in p
    ensures Split(p, sep) == [p]
  {
    if |p| > 0 {
      SplitNoSeparator(p[1..], sep);
      assert p == [p[0]] + p[1..];
    }
  }

  /** Splitting a separator-free piece followed by the separator yields that piece first. */
  lemma {:induction false} SplitAfterPiece(p: string, sep: char, t: string)
    requires sep !in p
    ensures Split(p + [sep] + t, sep) == [p] + Split(t, sep)
  {
    if |p| == 0 {
      assert p + [sep] + t == [sep] + t;
      assert ([sep] + t)[1..] == t;
    } else {
      SplitAfterPiece(p[1..], sep, t);
      assert (p + [sep] + t)[1..] == p[1..] + [sep] + t;
      assert p == [p[0]] + p[1..];
    }
  }

  /** Splitting a join of separator-free pieces gives back the pieces. */
  lemma {:induction false} SplitJoin(parts: seq<string>, sep: char)
    requires |parts| >= 1
    requires forall i :: 0 <= i < |parts| ==> sep !in parts[i]
    ensures Split(Join(parts, sep), sep) == parts
  {
    if |parts| == 1 {
      SplitNoSeparator(parts[0], sep);
    } else {
      SplitJoin(parts[1..], sep);
      SplitAfterPiece(parts[0], sep, Join(parts[1..], sep));
      assert parts == [parts[0]] + parts[1..];
    }
  }

  // ---------------------------------------------------------------- Trimming

  /**
   * The two kinds of whitespace the game meets: `String.Trim()` removes every
   * character `Char.IsWhiteSpace` accepts, while `int.Parse` with its default
   * number style skips only six ASCII characters around the number.
   */
  datatype Spaces = AnyWhiteSpace | NumberWhiteSpace

  /**
   * `Char.IsWhiteSpace(c)`: the Unicode space, line and paragraph separators
   * (U+0020, U+00A0, U+1680, U+2000 to U+200A, U+202F, U+205F, U+3000, U+2028,
   * U+2029) and the controls U+0009 to U+000D and U+0085.
   */
  predicate IsWhite(c: char) {
    c == ' ' || '\t' <= c <= '\r' || c == '\U{0085}' || c == '\U{00A0}' || c == '\U{1680}' ||
    '\U{2000}' <= c <= '\U{200A}' || c == '\U{2028}' || c == '\U{2029}' || c == '\U{202F}' ||
    c == '\U{205F}' || c == '\U{3000}'
  }

  /** The whitespace `NumberStyles.Integer` allows around a number: U+0009 to U+000D and U+0020. */
  predicate IsNumberWhite(c: char) {
    c == ' ' || '\t' <= c <= '\r'
  }

  predicate IsSpace(sp: Spaces, c: char) {
    match sp
    case AnyWhiteSpace => IsWhite(c)
    case NumberWhiteSpace => IsNumberWhite(c)
  }

  /** The string is empty or neither starts nor ends with a space of kind `sp`. */
  predicate TrimmedBy(sp: Spaces, s: string) {
    |s| == 0 || (!IsSpace(sp, s[0]) && !IsSpace(sp, s[|s| - 1]))
  }

  /** What `String.Trim()` returns: empty, or neither starting nor ending with whitespace. */
  predicate Trimmed(s: string) {
    TrimmedBy(AnyWhiteSpace, s)
  }

  /** Leading spaces removed. */
  function TrimStart(sp: Spaces, s: string): (r: string)
    ensures |r| <= |s| && r == s[|s| - |r|..]
    ensures |r| == 0 || !IsSpace(sp, r[0])
    ensures forall i :: 0 <= i < |s| - |r| ==> IsSpace(sp, s[i])
  {
    if |s| > 0 && IsSpace(sp, s[0]) then TrimStart(sp, s[1..]) else s
  }

  /** Trailing spaces removed. */
  function TrimEnd(sp: Spaces, s: string): (r: string)
    ensures |r| <= |s| && r == s[..|r|]
    ensures |r| == 0 || !IsSpace(sp, r[|r| - 1])
    ensures forall i :: |r| <= i < |s| ==> IsSpace(sp, s[i])
  {
    if |s| > 0 && IsSpace(sp, s[|s| - 1]) then TrimEnd(sp, s[..|s| - 1]) else s
  }

  /** Only spaces of kind `sp` lie outside `s[i..j]`. */
  predicate WhiteOutside(sp: Spaces, s: string, i: int, j: int) {
    0 <= i <= j <= |s| &&
    (forall k :: 0 <= k < i ==> IsSpace(sp, s[k])) && (forall k :: j <= k < |s| ==> IsSpace(sp, s[k]))
  }

  /**
   * Both ends stripped of spaces of kind `sp`: the longest infix of `s` that
   * starts and ends with another character; everything cut off is space.
   */
  function TrimBy(sp: Spaces, s: string): (r: string)
    ensures TrimmedBy(sp, r)
    ensures |r| <= |s|
    ensures TrimmedBy(sp, s) ==> r == s
    ensures |r| == 0 <==> forall i :: 0 <= i < |s| ==> IsSpace(sp, s[i])
    ensures exists i, j :: WhiteOutside(sp, s, i, j) && r == s[i..j]
  {
    TrimShape(sp, s);
    TrimInfix(sp, s);
    TrimEnd(sp, TrimStart(sp, s))
  }

  /** `s.Trim()`: both ends stripped of every `Char.IsWhiteSpace` character. */
  function Trim(s: string): (r: string)
    ensures Trimmed(r)
    ensures |r| <= |s|
    ensures Trimmed(s) ==> r == s
    ensures |r| == 0 <==> forall i :: 0 <= i < |s| ==> IsWhite(s[i])
    ensures exists i, j :: WhiteOutside(AnyWhiteSpace, s, i, j) && r == s[i..j]
  {
    TrimBy(AnyWhiteSpace, s)
  }

  lemma TrimShape(sp: Spaces, s: string)
    ensures var r := TrimEnd(sp, TrimStart(sp, s));
      TrimmedBy(sp, r) && |r| <= |s| && (TrimmedBy(sp, s) ==> r == s) &&
      (|r| == 0 <==> forall i :: 0 <= i < |s| ==> IsSpace(sp, s[i]))
  {
    var a := TrimStart(sp, s);
    var r := TrimEnd(sp, a);
    if |r| > 0 {
      assert r[0] == a[0];
    }
    if |r| == 0 {
      assert |a| == 0;
    }
    if TrimmedBy(sp, s) && |s| > 0 {
      assert a == s;
    }
  }

  lemma TrimInfix(sp: Spaces, s: string)
    ensures var r := TrimEnd(sp, TrimStart(sp, s));
      exists i, j :: WhiteOutside(sp, s, i, j) && r == s[i..j]
  {
    InfixOfInfix(sp, s, TrimStart(sp, s), TrimEnd(sp, TrimStart(sp, s)));
  }

  /** A prefix `r` of a suffix `a` of `s`, with only spaces cut off, is an infix of `s` with spaces outside it. */
  lemma InfixOfInfix(sp: Spaces, s: string, a: string, r: string)
    requires |a| <= |s| && a == s[|s| - |a|..]
    requires forall k :: 0 <= k < |s| - |a| ==> IsSpace(sp, s[k])
    requires |r| <= |a| && r == a[..|r|]
    requires forall k :: |r| <= k < |a| ==> IsSpace(sp, a[k])
    ensures exists i, j :: WhiteOutside(sp, s, i, j) && r == s[i..j]
  {
    var i := |s| - |a|;
    var j := i + |r|;
    forall k | j <= k < |s| ensures IsSpace(sp, s[k]) {
      assert s[k] == a[k - i];
    }
    assert r == s[i..j];
    assert WhiteOutside(sp, s, i, j);
  }

  /** Trimming twice is trimming once. */
  lemma TrimIdempotent(s: string)
    ensures Trim(Trim(s)) == Trim(s)
  {
  }

  /** Conversely, spaces around a string trimmed of them are exactly what trimming removes. */
  lemma TrimByPadded(sp: Spaces, pre: string, s: string, post: string)
    requires TrimmedBy(sp, s)
    requires forall i :: 0 <= i < |pre| ==> IsSpace(sp, pre[i])
    requires forall i :: 0 <= i < |post| ==> IsSpace(sp, post[i])
    ensures TrimBy(sp, pre + s + post) == s
  {
    if s == "" {
      var t := pre + s + post;
      forall i | 0 <= i < |t| ensures IsSpace(sp, t[i]) {
        if i < |pre| { assert t[i] == pre[i]; } else { assert t[i] == post[i - |pre|]; }
      }
    } else {
      assert pre + s + post == pre + (s + post);
      assert (s + post)[0] == s[0];
      TrimStartPadded(sp, pre, s + post);
      TrimEndPadded(sp, s, post);
    }
  }

  /** Whitespace of any `Char.IsWhiteSpace` kind around a trimmed string is exactly what `Trim` removes. */
  lemma TrimPadded(pre: string, s: string, post: string)
    requires Trimmed(s)
    requires forall i :: 0 <= i < |pre| ==> IsWhite(pre[i])
    requires forall i :: 0 <= i < |post| ==> IsWhite(post[i])
    ensures Trim(pre + s + post) == s
  {
    assert forall i :: 0 <= i < |pre| ==> IsSpace(AnyWhiteSpace, pre[i]);
    assert forall i :: 0 <= i < |post| ==> IsSpace(AnyWhiteSpace, post[i]);
    TrimByPadded(AnyWhiteSpace, pre, s, post);
  }

  lemma {:induction false} TrimStartPadded(sp: Spaces, pad: string, t: string)
    requires |t| > 0 && !IsSpace(sp, t[0])
    requires forall i :: 0 <= i < |pad| ==> IsSpace(sp, pad[i])
    ensures TrimStart(sp, pad + t) == t
    decreases |pad|
  {
    if |pad| > 0 {
      assert (pad + t)[1..] == pad[1..] + t;
      TrimStartPadded(sp, pad[1..], t);
    } else {
      assert pad + t == t;
    }
  }

  lemma {:induction false} TrimEndPadded(sp: Spaces, s: string, pad: string)
    requires |s| > 0 && !IsSpace(sp, s[|s| - 1])
    requires forall i :: 0 <= i < |pad| ==> IsSpace(sp, pad[i])
    ensures TrimEnd(sp, s + pad) == s
    decreases |pad|
  {
    if |pad| > 0 {
      assert (s + pad)[..|s + pad| - 1] == s + pad[..|pad| - 1];
      TrimEndPadded(sp, s, pad[..|pad| - 1]);
    } else {
      assert s + pad == s;
    }
  }

  // ---------------------------------------------------------------- Integers

  const Int32Min: int := -0x8000_0000
  const Int32Max: int := 0x7FFF_FFFF

  predicate IsDigit(c: char) { '0' <= c <= '9' }

  predicate AllDigits(s: string) { forall i :: 0 <= i < |s| ==> IsDigit(s[i]) }

  /** Value of a decimal digit string, most significant digit first. */
  function DigitsValue(ds: string): nat
    requires AllDigits(ds)
  {
    if |ds| == 0 then 0
    else DigitsValue(ds[..|ds| - 1]) * 10 + (ds[|ds| - 1] as int - '0' as int)
  }

  /** An optional sign followed by at least one decimal digit. */
  predicate IntSyntax(s: string) {
    if |s| > 0 && (s[0] == '-' || s[0] == '+') then |s| > 1 && AllDigits(s[1..])
    else |s| > 0 && AllDigits(s)
  }

  /** The mathematical value of a well-formed integer literal. */
  function IntValue(s: string): int
    requires IntSyntax(s)
  {
    if s[0] == '-' then 0 - DigitsValue(s[1..])
    else if s[0] == '+' then DigitsValue(s[1..])
    else DigitsValue(s)
  }

  /** `int.Parse` on an already trimmed string: None stands for the exception. */
  function ParseInt32(s: string): (r: Option<int>)
    ensures r.Some? ==> Int32Min <= r.value <= Int32Max
  {
    if IntSyntax(s) && Int32Min <= IntValue(s) <= Int32Max then Some(IntValue(s)) else None
  }

  /**
   * `int.Parse(s)` / `int.TryParse(s)` with the default number style, which
   * also allows the six ASCII whitespace characters on either side. Text that
   * `Trim` has already trimmed is read strictly.
   */
  function IntParse(s: string): (r: Option<int>)
    ensures r.Some? ==> Int32Min <= r.value <= Int32Max
    ensures TrimmedBy(NumberWhiteSpace, s) ==> r == ParseInt32(s)
    ensures Trimmed(s) ==> r == ParseInt32(s)
  {
    ParseInt32(TrimBy(NumberWhiteSpace, s))
  }

  /** ASCII whitespace on either side of a literal does not change what `int.Parse` reads. */
  lemma IntParsePadded(pre: string, s: string, post: string)
    requires TrimmedBy(NumberWhiteSpace, s)
    requires forall i :: 0 <= i < |pre| ==> IsNumberWhite(pre[i])
    requires forall i :: 0 <= i < |post| ==> IsNumberWhite(post[i])
    ensures IntParse(pre + s + post) == ParseInt32(s)
  {
    assert forall i :: 0 <= i < |pre| ==> IsSpace(NumberWhiteSpace, pre[i]);
    assert forall i :: 0 <= i < |post| ==> IsSpace(NumberWhiteSpace, post[i]);
    TrimByPadded(NumberWhiteSpace, pre, s, post);
  }

  /**
   * A no-break space (U+00A0) is whitespace to `Trim` but not to `int.Parse`:
   * "\u00A042" reads as 42 after trimming, and not at all without.
   */
  lemma NoBreakSpaceOnlyTrimmed()
    ensures Trim("\U{00A0}42") == "42"
    ensures IntParse(Trim("\U{00A0}42")) == Some(42)
    ensures IntParse("\U{00A0}42") == None
  {
    NoBreakSpaceTrimmed();
    FortyTwoParses();
    NoBreakSpaceNotParsed();
  }

  lemma NoBreakSpaceTrimmed()
    ensures Trim("\U{00A0}42") == "42"
  {
    assert "\U{00A0}" + "42" + "" == "\U{00A0}42";
    TrimPadded("\U{00A0}", "42", "");
  }

  lemma NoBreakSpaceNotParsed()
    ensures IntParse("\U{00A0}42") == None
  {
    var u := "\U{00A0}42";
    assert TrimmedBy(NumberWhiteSpace, u);
    assert !IsDigit(u[0]) && u[0] != '-' && u[0] != '+';
    assert !IntSyntax(u);
  }

  lemma FortyTwoParses()
    ensures ParseInt32("42") == Some(42)
  {
    assert "42"[..1] == "4" && "4"[..0] == "";
    assert AllDigits("42") && IntSyntax("42");
    assert DigitsValue("42") == 42;
  }

  /** Decimal digits of a natural number, without sign or leading zeros. */
  function Digits(n: nat): (ds: string)
    ensures |ds| > 0 && AllDigits(ds)
  {
    var d := ['0' + (n % 10) as char];
    if n < 10 then d else Digits(n / 10) + d
  }

  /** Decimal rendering of an integer, `n.ToString()`. */
  function FormatInt(n: int): string
  {
    if n < 0 then "-" + Digits(-n) else Digits(n)
  }

  lemma {:induction false} DigitsValueOfDigits(n: nat)
    ensures DigitsValue(Digits(n)) == n
  {
    var ds := Digits(n);
    if n >= 10 {
      DigitsValueOfDigits(n / 10);
      assert ds[..|ds| - 1] == Digits(n / 10);
    }
  }

  /** Parsing the rendering of any 32-bit integer gives it back. */
  lemma ParseFormat(n: int)
    requires Int32Min <= n <= Int32Max
    ensures ParseInt32(FormatInt(n)) == Some(n)
  {
    var s := FormatInt(n);
    if n < 0 {
      DigitsValueOfDigits(-n);
      assert s[1..] == Digits(-n);
    } else {
      DigitsValueOfDigits(n);
    }
  }

  // ---------------------------------------------------------------- Case folding

  /** ASCII lower-casing of one character. */
  function ToLower(c: char): char {
    if 'A' <= c <= 'Z' then (c as int + 32) as char else c
  }

  /** Lower-casing of a whole string. */
  function Lowered(s: string): (r: string)
    ensures |r| == |s|
    ensures forall i :: 0 <= i < |s| ==> r[i] == ToLower(s[i])
  {
    if |s| == 0 then "" else [ToLower(s[0])] + Lowered(s[1..])
  }

  /** `a.Equals(b, StringComparison.OrdinalIgnoreCase)` with ASCII folding, character by character. */
  predicate EqualsIgnoreCase(a: string, b: string) {
    |a| == |b| && forall i :: 0 <= i < |a| ==> ToLower(a[i]) == ToLower(b[i])
  }

  /** Case-insensitive equality is equality of the lower-cased strings. */
  lemma EqualsIgnoreCaseLowered(a: string, b: string)
    ensures EqualsIgnoreCase(a, b) <==> Lowered(a) == Lowered(b)
  {
    if Lowered(a) == Lowered(b) {
      assert |a| == |b|;
      forall i | 0 <= i < |a| ensures ToLower(a[i]) == ToLower(b[i]) {
        assert Lowered(a)[i] == Lowered(b)[i];
      }
    }
  }
}
