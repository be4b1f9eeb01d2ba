/**
 * The text normalisers of the subtitle fixers: the language guess, the regular-expression
 * rewrites they are built from (whitespace, spacing around punctuation, spacing at the
 * boundary between CJK ideographs and Latin letters or digits, first-letter capitalisation),
 * the typo table, and the three pipelines conservative_fix_text, fix_chinese_text and
 * fix_english_text.
 *
 * Each `re.sub` is modelled as a recursive function that scans the text from the left the way
 * Python's `re` does: a match consumes what it matched and the scan resumes after it.
 * The third-party correctors (pycorrector with OpenCC, pyspellchecker, LanguageTool) are
 * `Option<string -> string>`: None when the library is not installed; a failure inside a
 * corrector, which the scripts catch and turn into "no change", is part of the function.
 */
module Normalize {
  import opened Wrappers
  import opened Text

  // ---------------------------------------------------------------------------
  // Characters

  datatype Lang = Zh | En

  /** The class [\u4e00-\u9fff]: the CJK unified ideographs block. */
  predicate IsIdeograph(c: char) {
    '\U{4E00}' <= c <= '\U{9FFF}'
  }

  /** The class [A-Za-z0-9]. */
  predicate IsAsciiAlnum(c: char) {
    'A' <= c <= 'Z' || 'a' <= c <= 'z' || '0' <= c <= '9'
  }

  predicate IsLower(c: char) {
    'a' <= c <= 'z'
  }

  function Upper(c: char): (u: char)
    requires IsLower(c)
    ensures 'A' <= u <= 'Z'
  {
    (c as int - 32) as char
  }

  /** The three punctuation classes of the rewrites. */
  datatype Punctuation =
    | Latin       // [.,!?;:]
    | Cjk         // [，。！？；：]  (conservative_fix_text)
    | CjkEnum     // [，。！？；：、] (fix_chinese_text also takes the enumeration comma)

  predicate IsMark(c: char, p: Punctuation) {
    match p
    case Latin => c == '.' || c == ',' || c == '!' || c == '?' || c == ';' || c == ':'
    case Cjk =>
      c == '\U{FF0C}' || c == '\U{3002}' || c == '\U{FF01}' || c == '\U{FF1F}' || c == '\U{FF1B}' || c == '\U{FF1A}'
    case CjkEnum =>
      c == '\U{FF0C}' || c == '\U{3002}' || c == '\U{FF01}' || c == '\U{FF1F}' || c == '\U{FF1B}' || c == '\U{FF1A}'
      || c == '\U{3001}'
  }

  // ---------------------------------------------------------------------------
  // detect_language_simple

  /** re.search(r"[\u4e00-\u9fff]", s): the position of the first ideograph, if any. */
  function FirstIdeograph(s: string): (r: Option<nat>)
    ensures r.Some? ==> r.value < |s| && IsIdeograph(s[r.value])
    ensures r.Some? ==> forall j :: 0 <= j < r.value ==> !IsIdeograph(s[j])
    ensures r.None? ==> forall j :: 0 <= j < |s| ==> !IsIdeograph(s[j])
  {
    if s == [] then None
    else if IsIdeograph(s[0]) then Some(0)
    else match FirstIdeograph(s[1..])
      case None => None
      case Some(k) => Some(k + 1)
  }

  /** Chinese exactly when the text holds at least one CJK unified ideograph. */
  function DetectLanguage(s: string): (l: Lang)
    ensures l == Zh <==> exists j :: 0 <= j < |s| && IsIdeograph(s[j])
  {
    if FirstIdeograph(s).Some? then Zh else En
  }

  // ---------------------------------------------------------------------------
  // Adjacent pairs the rewrites remove

  /** A kind of adjacent character pair that the normalisers promise to leave out. */
  datatype Adjacency =
    | SpaceBeforeMark(marks: Punctuation)
    | IdeographThenAlnum
    | AlnumThenIdeograph
    | DoubleSpace

  predicate Joins(a: Adjacency, x: char, y: char) {
    match a
    case SpaceBeforeMark(p) => IsSpace(x) && IsMark(y, p)
    case IdeographThenAlnum => IsIdeograph(x) && IsAsciiAlnum(y)
    case AlnumThenIdeograph => IsAsciiAlnum(x) && IsIdeograph(y)
    case DoubleSpace => IsSpace(x) && IsSpace(y)
  }

  /** No two adjacent characters of `s` form a pair of kind `a`. */
  predicate Avoids(s: string, a: Adjacency) {
    forall i :: 0 <= i < |s| - 1 ==> !Joins(a, s[i], s[i + 1])
  }

  lemma {:induction false} AvoidsCons(x: char, t: string, a: Adjacency)
    ensures Avoids([x] + t, a) <==> Avoids(t, a) && (t == [] || !Joins(a, x, t[0]))
  {
    var s := [x] + t;
    if Avoids(t, a) && (t == [] || !Joins(a, x, t[0])) {
      forall i | 0 <= i < |s| - 1
        ensures !Joins(a, s[i], s[i + 1])
      {
        if i > 0 {
          assert s[i] == t[i - 1] && s[i + 1] == t[i];
        }
      }
    }
    if Avoids(s, a) {
      if t != [] {
        assert s[0] == x && s[1] == t[0];
      }
      forall i | 0 <= i < |t| - 1
        ensures !Joins(a, t[i], t[i + 1])
      {
        assert s[i + 1] == t[i] && s[i + 2] == t[i + 1];
      }
    }
  }

  lemma {:induction false} AvoidsInfix(s: string, i: nat, j: nat, a: Adjacency)
    requires i <= j <= |s| && Avoids(s, a)
    ensures Avoids(s[i..j], a)
  {
    var t := s[i..j];
    forall k | 0 <= k < |t| - 1
      ensures !Joins(a, t[k], t[k + 1])
    {
      assert t[k] == s[i + k] && t[k + 1] == s[i + k + 1];
    }
  }

  /** Stripping keeps every promise about adjacent pairs. */
  lemma {:induction false} StripAvoids(s: string, a: Adjacency)
    requires Avoids(s, a)
    ensures Avoids(Strip(s), a)
  {
    var l := Lstrip(s);
    LstripParts(s);
    RstripParts(l);
    AvoidsInfix(s, |s| - |l|, |s|, a);
    AvoidsInfix(l, 0, |Rstrip(l)|, a);
  }

  // ---------------------------------------------------------------------------
  // Runs

  predicate IsBlank(c: char) {
    c == ' ' || c == '\t' || c == '\U{A0}'
  }

  /** The length of the leading run of spaces, tabs and no-break spaces. */
  function BlankRun(s: string): (n: nat)
    ensures n <= |s| && (n < |s| ==> !IsBlank(s[n]))
    ensures forall j :: 0 <= j < n ==> IsBlank(s[j])
  {
    if s != [] && IsBlank(s[0]) then 1 + BlankRun(s[1..]) else 0
  }

  /** The length of the leading run of whitespace (the `\s+` a match starting here takes). */
  function SpaceRun(s: string): (n: nat)
    ensures n <= |s| && (n < |s| ==> !IsSpace(s[n]))
    ensures forall j :: 0 <= j < n ==> IsSpace(s[j])
  {
    if s != [] && IsSpace(s[0]) then 1 + SpaceRun(s[1..]) else 0
  }

  // ---------------------------------------------------------------------------
  // re.sub(r"[ \t\u00A0]+", " ", s)

  /** Every maximal run of spaces, tabs and no-break spaces becomes one space. */
  function CollapseBlanks(s: string): (r: string)
    ensures |r| <= |s|
    decreases |s|
  {
    if s == [] then []
    else if IsBlank(s[0]) then " " + CollapseBlanks(s[BlankRun(s)..])
    else [s[0]] + CollapseBlanks(s[1..])
  }

  /** Collapsing blanks changes whitespace only. */
  lemma {:induction false} CollapseBlanksVisible(s: string)
    ensures Visible(CollapseBlanks(s)) == Visible(s)
    decreases |s|
  {
    if s != [] {
      if IsBlank(s[0]) {
        var n := BlankRun(s);
        assert s == s[..n] + s[n..];
        VisibleAppend(s[..n], s[n..]);
        VisibleOfSpace(s[..n]);
        VisibleAppend(" ", CollapseBlanks(s[n..]));
        CollapseBlanksVisible(s[n..]);
      } else {
        CollapseBlanksVisible(s[1..]);
        VisibleAppend([s[0]], CollapseBlanks(s[1..]));
      }
    }
  }

  // ---------------------------------------------------------------------------
  // re.sub(r"\s+([marks])", r"\1", s)

  /**
   * Every maximal whitespace run that is directly followed by a mark is removed.  A run that
   * is not followed by a mark is kept: the greedy `\s+` backtracks only onto whitespace, so no
   * match can start anywhere inside it.  A match consumes the mark, which is emitted as is.
   */
  function DropSpaceBefore(s: string, p: Punctuation): (r: string)
    ensures s != [] ==> r != [] && (!IsSpace(s[0]) ==> r[0] == s[0])
    decreases |s|
  {
    if s == [] then []
    else if !IsSpace(s[0]) then [s[0]] + DropSpaceBefore(s[1..], p)
    else
      var n := SpaceRun(s);
      if n < |s| && IsMark(s[n], p) then DropSpaceBefore(s[n..], p)
      else s[..n] + DropSpaceBefore(s[n..], p)
  }

  /** After the rewrite no whitespace character directly precedes a mark. */
  lemma {:induction false} DropSpaceBeforeAvoids(s: string, p: Punctuation)
    ensures Avoids(DropSpaceBefore(s, p), SpaceBeforeMark(p))
    decreases |s|
  {
    var a := SpaceBeforeMark(p);
    if s != [] {
      if !IsSpace(s[0]) {
        DropSpaceBeforeAvoids(s[1..], p);
        AvoidsCons(s[0], DropSpaceBefore(s[1..], p), a);
      } else {
        var n := SpaceRun(s);
        DropSpaceBeforeAvoids(s[n..], p);
        if !(n < |s| && IsMark(s[n], p)) {
          var rest := DropSpaceBefore(s[n..], p);
          RunAvoids(s[..n], rest, p);
        }
      }
    }
  }

  /** A whitespace run followed by text that does not start with a mark adds no space-mark pair. */
  lemma {:induction false} RunAvoids(run: string, rest: string, p: Punctuation)
    requires AllSpace(run)
    requires Avoids(rest, SpaceBeforeMark(p))
    requires rest != [] ==> !IsMark(rest[0], p)
    ensures Avoids(run + rest, SpaceBeforeMark(p))
    decreases |run|
  {
    if run != [] {
      RunAvoids(run[1..], rest, p);
      assert run + rest == [run[0]] + (run[1..] + rest);
      AvoidsCons(run[0], run[1..] + rest, SpaceBeforeMark(p));
    }
  }

  /** Dropping whitespace before marks keeps every other character. */
  lemma {:induction false} DropSpaceBeforeVisible(s: string, p: Punctuation)
    ensures Visible(DropSpaceBefore(s, p)) == Visible(s)
    decreases |s|
  {
    if s != [] {
      if !IsSpace(s[0]) {
        DropSpaceBeforeVisible(s[1..], p);
        VisibleAppend([s[0]], DropSpaceBefore(s[1..], p));
      } else {
        var n := SpaceRun(s);
        assert s == s[..n] + s[n..];
        VisibleAppend(s[..n], s[n..]);
        VisibleOfSpace(s[..n]);
        DropSpaceBeforeVisible(s[n..], p);
        VisibleAppend(s[..n], DropSpaceBefore(s[n..], p));
      }
    }
  }

  // ---------------------------------------------------------------------------
  // re.sub(r"([.,!?;:])([^\s])", r"\1 \2", s)

  /**
   * A space goes between a Latin mark and the non-whitespace character after it.  The match
   * consumes that character, so when it is itself a mark it gets no space after it.
   */
  function SpaceAfterMarks(s: string): (r: string)
    ensures s != [] ==> r != [] && r[0] == s[0]
    decreases |s|
  {
    if s == [] then []
    else if |s| >= 2 && IsMark(s[0], Latin) && !IsSpace(s[1]) then [s[0], ' ', s[1]] + SpaceAfterMarks(s[2..])
    else [s[0]] + SpaceAfterMarks(s[1..])
  }

  /** Spacing after marks inserts spaces only. */
  lemma {:induction false} SpaceAfterMarksVisible(s: string)
    ensures Visible(SpaceAfterMarks(s)) == Visible(s)
    decreases |s|
  {
    if |s| >= 2 && IsMark(s[0], Latin) && !IsSpace(s[1]) {
      SpacedMarkVisible(s);
      SpaceAfterMarksVisible(s[2..]);
    } else if s != [] {
      UnspacedVisible(s);
      SpaceAfterMarksVisible(s[1..]);
    }
  }

  /** A mark and the character after it keep their visible characters once a space goes between them. */
  lemma {:induction false} SpacedMarkVisible(s: string)
    requires |s| >= 2 && IsMark(s[0], Latin) && !IsSpace(s[1])
    ensures Visible(SpaceAfterMarks(s)) == [s[0], s[1]] + Visible(SpaceAfterMarks(s[2..]))
    ensures Visible(s) == [s[0], s[1]] + Visible(s[2..])
  {
    var r := SpaceAfterMarks(s[2..]);
    assert SpaceAfterMarks(s) == [s[0]] + ([' '] + ([s[1]] + r));
    assert s == [s[0]] + ([s[1]] + s[2..]);
    VisiblePair(s[0], s[1], r);
    VisiblePair(s[0], s[1], s[2..]);
  }

  /** Two visible characters stay visible with or without a space between them. */
  lemma {:induction false} VisiblePair(x: char, y: char, r: string)
    requires !IsSpace(x) && !IsSpace(y)
    ensures Visible([x] + ([' '] + ([y] + r))) == [x, y] + Visible(r)
    ensures Visible([x] + ([y] + r)) == [x, y] + Visible(r)
  {
    VisibleCons(y, r);
    VisibleCons(' ', [y] + r);
    VisibleCons(x, [' '] + ([y] + r));
    VisibleCons(x, [y] + r);
  }

  /** A character that gets no space after it is copied as it is. */
  lemma {:induction false} UnspacedVisible(s: string)
    requires s != [] && !(|s| >= 2 && IsMark(s[0], Latin) && !IsSpace(s[1]))
    ensures Visible(SpaceAfterMarks(s)) == Visible([s[0]]) + Visible(SpaceAfterMarks(s[1..]))
    ensures Visible(s) == Visible([s[0]]) + Visible(s[1..])
  {
    assert SpaceAfterMarks(s) == [s[0]] + SpaceAfterMarks(s[1..]);
    VisibleAppend([s[0]], SpaceAfterMarks(s[1..]));
    assert s == [s[0]] + s[1..];
    VisibleAppend([s[0]], s[1..]);
  }

  /** Text in which every mark is already followed by whitespace or ends the text is left alone. */
  lemma {:induction false} SpaceAfterMarksSpaced(s: string)
    requires forall i :: 0 <= i < |s| - 1 && IsMark(s[i], Latin) ==> IsSpace(s[i + 1])
    ensures SpaceAfterMarks(s) == s
    decreases |s|
  {
    if s != [] {
      var t := s[1..];
      forall i | 0 <= i < |t| - 1 && IsMark(t[i], Latin)
        ensures IsSpace(t[i + 1])
      {
        assert t[i] == s[i + 1] && t[i + 1] == s[i + 2];
      }
      SpaceAfterMarksSpaced(t);
    }
  }

  /** The consumed character is not spaced: an ellipsis is split after its first dot only. */
  lemma {:induction false} SpaceAfterMarksEllipsis()
    ensures SpaceAfterMarks("no...") == "no. .."
  {
    assert SpaceAfterMarks(".") == ".";
    assert SpaceAfterMarks("...") == ". .." by {
      assert "..."[2..] == ".";
    }
    assert SpaceAfterMarks("o...") == "o. ..";
  }

  // ---------------------------------------------------------------------------
  // re.sub(r"\s{2,}", " ", s)

  /** Every maximal whitespace run of length two or more becomes one space; single whitespace characters stay. */
  function CollapseRuns(s: string): (r: string)
    ensures s != [] ==> r != [] && (IsSpace(r[0]) <==> IsSpace(s[0])) && (!IsSpace(s[0]) ==> r[0] == s[0])
    decreases |s|
  {
    if s == [] then []
    else if !IsSpace(s[0]) then [s[0]] + CollapseRuns(s[1..])
    else
      var n := SpaceRun(s);
      if n >= 2 then " " + CollapseRuns(s[n..]) else [s[0]] + CollapseRuns(s[1..])
  }

  /** After collapsing, no two whitespace characters are adjacent. */
  lemma {:induction false} CollapseRunsAvoids(s: string)
    ensures Avoids(CollapseRuns(s), DoubleSpace)
    decreases |s|
  {
    if s != [] {
      if !IsSpace(s[0]) {
        CollapseRunsAvoids(s[1..]);
        AvoidsCons(s[0], CollapseRuns(s[1..]), DoubleSpace);
      } else {
        var n := SpaceRun(s);
        if n >= 2 {
          CollapseRunsAvoids(s[n..]);
          AvoidsCons(' ', CollapseRuns(s[n..]), DoubleSpace);
        } else {
          CollapseRunsAvoids(s[1..]);
          AvoidsCons(s[0], CollapseRuns(s[1..]), DoubleSpace);
        }
      }
    }
  }

  /** Collapsing whitespace runs brings no pair of any kind together that was not adjacent before. */
  lemma {:induction false} CollapseRunsKeeps(s: string, a: Adjacency)
    requires Avoids(s, a)
    ensures Avoids(CollapseRuns(s), a)
    decreases |s|
  {
    if s != [] {
      if !IsSpace(s[0]) || SpaceRun(s) < 2 {
        AvoidsInfix(s, 1, |s|, a);
        CollapseRunsKeeps(s[1..], a);
        AvoidsCons(s[0], CollapseRuns(s[1..]), a);
      } else {
        var n := SpaceRun(s);
        AvoidsInfix(s, n, |s|, a);
        CollapseRunsKeeps(s[n..], a);
        AvoidsCons(' ', CollapseRuns(s[n..]), a);
        if n < |s| {
          assert !Joins(a, s[n - 1], s[n]);
        }
      }
    }
  }

  /** Collapsing whitespace runs changes whitespace only. */
  lemma {:induction false} CollapseRunsVisible(s: string)
    ensures Visible(CollapseRuns(s)) == Visible(s)
    decreases |s|
  {
    if s != [] {
      if !IsSpace(s[0]) || SpaceRun(s) < 2 {
        CollapseRunsVisible(s[1..]);
        VisibleAppend([s[0]], CollapseRuns(s[1..]));
      } else {
        var n := SpaceRun(s);
        assert s == s[..n] + s[n..];
        VisibleAppend(s[..n], s[n..]);
        VisibleOfSpace(s[..n]);
        CollapseRunsVisible(s[n..]);
        VisibleAppend(" ", CollapseRuns(s[n..]));
      }
    }
  }

  // ---------------------------------------------------------------------------
  // re.sub(r"([\u4e00-\u9fff])([A-Za-z0-9]+)", r"\1 \2", s) and
  // re.sub(r"([A-Za-z0-9]+)([\u4e00-\u9fff])", r"\1 \2", s)

  predicate IsBoundary(a: Adjacency) {
    a == IdeographThenAlnum || a == AlnumThenIdeograph
  }

  /**
   * One space goes between every two adjacent characters of kind `a`.  With
   * `IdeographThenAlnum` this is the first substitution: a match is an ideograph and the run of
   * letters and digits after it, and no match can start inside that run, so spacing each
   * ideograph-alnum pair gives the same text.  With `AlnumThenIdeograph` it is the second: the
   * greedy run backtracks onto letters and digits only, so a match ends exactly at an
   * alnum-ideograph pair, and the consumed ideograph cannot start a match.
   */
  function SpaceBetween(s: string, a: Adjacency): (r: string)
    requires IsBoundary(a)
    ensures s != [] ==> r != [] && r[0] == s[0]
    decreases |s|
  {
    if s == [] then []
    else if |s| >= 2 && Joins(a, s[0], s[1]) then [s[0], ' '] + SpaceBetween(s[1..], a)
    else [s[0]] + SpaceBetween(s[1..], a)
  }

  /** After the substitution no pair of that kind is left. */
  lemma {:induction false} SpaceBetweenAvoids(s: string, a: Adjacency)
    requires IsBoundary(a)
    ensures Avoids(SpaceBetween(s, a), a)
    decreases |s|
  {
    if s != [] {
      var rest := SpaceBetween(s[1..], a);
      SpaceBetweenAvoids(s[1..], a);
      if |s| >= 2 && Joins(a, s[0], s[1]) {
        AvoidsCons(' ', rest, a);
        AvoidsCons(s[0], [' '] + rest, a);
        assert [s[0], ' '] + rest == [s[0]] + ([' '] + rest);
      } else {
        AvoidsCons(s[0], rest, a);
      }
    }
  }

  /** Neither side of a boundary pair forms a pair of any kind with a space. */
  lemma {:induction false} BoundaryNotSpaced(a: Adjacency, b: Adjacency, x: char, y: char)
    requires IsBoundary(a) && Joins(a, x, y)
    ensures !Joins(b, x, ' ') && !Joins(b, ' ', y)
  {
  }

  /** Inserting boundary spaces creates no pair of any other kind. */
  lemma {:induction false} SpaceBetweenKeeps(s: string, a: Adjacency, b: Adjacency)
    requires IsBoundary(a) && Avoids(s, b)
    ensures Avoids(SpaceBetween(s, a), b)
    decreases |s|
  {
    if s != [] {
      var rest := SpaceBetween(s[1..], a);
      AvoidsInfix(s, 1, |s|, b);
      SpaceBetweenKeeps(s[1..], a, b);
      if |s| >= 2 && Joins(a, s[0], s[1]) {
        BoundaryNotSpaced(a, b, s[0], s[1]);
        AvoidsCons(' ', rest, b);
        AvoidsCons(s[0], [' '] + rest, b);
        assert SpaceBetween(s, a) == [s[0]] + ([' '] + rest);
      } else {
        AvoidsCons(s[0], rest, b);
        assert SpaceBetween(s, a) == [s[0]] + rest;
        if |s| >= 2 {
          assert !Joins(b, s[0], s[1]);
        }
      }
    }
  }

  /** Boundary spacing inserts spaces only. */
  lemma {:induction false} SpaceBetweenVisible(s: string, a: Adjacency)
    requires IsBoundary(a)
    ensures Visible(SpaceBetween(s, a)) == Visible(s)
    decreases |s|
  {
    if s != [] {
      var rest := SpaceBetween(s[1..], a);
      SpaceBetweenVisible(s[1..], a);
      if |s| >= 2 && Joins(a, s[0], s[1]) {
        VisibleAppend([s[0], ' '], rest);
        assert Visible([s[0], ' ']) == [s[0]];
      } else {
        VisibleAppend([s[0]], rest);
      }
    }
  }

  // ---------------------------------------------------------------------------
  // First-letter capitalisation

  /** `if text and text[0].islower(): text = text[0].upper() + text[1:]`, for ASCII letters. */
  function CapitalizeFirst(s: string): (r: string)
    ensures |r| == |s| && (s != [] ==> r[1..] == s[1..])
    ensures r == [] || !IsLower(r[0])
    ensures s != [] && !IsLower(s[0]) ==> r == s
  {
    if s != [] && IsLower(s[0]) then [Upper(s[0])] + s[1..] else s
  }

  /** When the text starts with a visible character, capitalising commutes with dropping whitespace. */
  lemma {:induction false} CapitalizeVisible(s: string)
    requires s == [] || !IsSpace(s[0])
    ensures Visible(CapitalizeFirst(s)) == CapitalizeFirst(Visible(s))
  {
    if s != [] {
      var r := CapitalizeFirst(s);
      assert r == [r[0]] + s[1..];
      VisibleAppend([r[0]], s[1..]);
      assert s == [s[0]] + s[1..];
      VisibleAppend([s[0]], s[1..]);
    }
  }

  /** Capitalising one letter creates no pair of any kind. */
  lemma {:induction false} CapitalizeKeeps(s: string, a: Adjacency)
    requires Avoids(s, a)
    ensures Avoids(CapitalizeFirst(s), a)
  {
    if s != [] && IsLower(s[0]) {
      var r := CapitalizeFirst(s);
      AvoidsInfix(s, 1, |s|, a);
      assert r == [r[0]] + s[1..];
      AvoidsCons(r[0], s[1..], a);
      if |s| >= 2 {
        assert !Joins(a, s[0], s[1]);
      }
    }
  }

  // ---------------------------------------------------------------------------
  // Correctors

  /** Runs an optional corrector: (text, false) without it, otherwise its output and whether that differs. */
  function CorrectWith(corrector: Option<string -> string>, text: string): (r: (string, bool))
    ensures corrector.None? ==> r == (text, false)
    ensures r.1 <==> r.0 != text
  {
    match corrector
    case None => (text, false)
    case Some(f) => (f(text), f(text) != text)
  }

  // ---------------------------------------------------------------------------
  // fix_srt.conservative_fix_text

  /** The common first steps: blanks collapsed, then stripped. */
  function Prepared(t: string): (r: string)
    ensures IsStripped(r) && Visible(r) == Visible(t)
  {
    CollapseBlanksVisible(t);
    StripVisible(CollapseBlanks(t));
    Strip(CollapseBlanks(t))
  }

  /** The English branch of conservative_fix_text after the common steps. */
  function LatinSpacing(t: string): string {
    CapitalizeFirst(CollapseRuns(SpaceAfterMarks(DropSpaceBefore(t, Latin))))
  }

  /** The Chinese rewrites shared by both Chinese fixers, with the marks of each. */
  function CjkSpacing(t: string, p: Punctuation): string {
    CollapseRuns(SpaceBetween(SpaceBetween(DropSpaceBefore(t, p), IdeographThenAlnum), AlnumThenIdeograph))
  }

  /** The text the Chinese branch starts from: corrected when requested and available. */
  function ConservativeInput(text: string, lang: Lang, usePycorrector: bool, corrector: Option<string -> string>): string {
    if usePycorrector && lang == Zh then CorrectWith(corrector, text).0 else text
  }

  /**
   * conservative_fix_text(text, lang, aggressiveness, use_pycorrector): the rewritten text and
   * whether it differs from the input or the corrector reported a change.  `aggressiveness` is
   * never read and is left out.
   */
  function ConservativeFixText(text: string, lang: Lang, usePycorrector: bool, corrector: Option<string -> string>)
    : (r: (string, bool))
    ensures r.1 <==> r.0 != text || (usePycorrector && lang == Zh && CorrectWith(corrector, text).1)
  {
    var t := ConservativeInput(text, lang, usePycorrector, corrector);
    var pyChanged := usePycorrector && lang == Zh && CorrectWith(corrector, text).1;
    var base := Prepared(t);
    var out := if lang == En then LatinSpacing(base) else CjkSpacing(base, Cjk);
    (out, out != text || pyChanged)
  }

  /** The English chain starting from a stripped text keeps its first character visible until capitalisation. */
  lemma {:induction false} LatinSpacingVisible(t: string)
    requires t == [] || !IsSpace(t[0])
    ensures Visible(LatinSpacing(t)) == CapitalizeFirst(Visible(t))
    ensures Avoids(LatinSpacing(t), DoubleSpace)
  {
    var d := DropSpaceBefore(t, Latin);
    var m := SpaceAfterMarks(d);
    var c := CollapseRuns(m);
    DropSpaceBeforeVisible(t, Latin);
    SpaceAfterMarksVisible(d);
    CollapseRunsVisible(m);
    CapitalizeVisible(c);
    CollapseRunsAvoids(m);
    CapitalizeKeeps(c, DoubleSpace);
  }

  /**
   * The English branch: no two adjacent whitespace characters, a first character that is not a
   * lower-case letter, and the same visible characters as the input except that the first one
   * is capitalised.
   */
  lemma {:induction false} ConservativeFixTextEnglish(text: string, usePycorrector: bool, corrector: Option<string -> string>)
    ensures var r := ConservativeFixText(text, En, usePycorrector, corrector).0;
      Avoids(r, DoubleSpace) && (r == [] || !IsLower(r[0]))
      && Visible(r) == CapitalizeFirst(Visible(text))
  {
    var base := Prepared(text);
    LatinSpacingVisible(base);
  }

  /** The Chinese chain from any text: the four kinds of pair are gone and only whitespace changed. */
  lemma {:induction false} CjkSpacingAvoids(t: string, p: Punctuation)
    ensures var r := CjkSpacing(t, p);
      Avoids(r, SpaceBeforeMark(p)) && Avoids(r, IdeographThenAlnum) && Avoids(r, AlnumThenIdeograph)
      && Avoids(r, DoubleSpace) && Visible(r) == Visible(t)
  {
    var d := DropSpaceBefore(t, p);
    var x := SpaceBetween(d, IdeographThenAlnum);
    var y := SpaceBetween(x, AlnumThenIdeograph);
    var mark := SpaceBeforeMark(p);
    DropSpaceBeforeAvoids(t, p);
    SpaceBetweenKeeps(d, IdeographThenAlnum, mark);
    SpaceBetweenAvoids(d, IdeographThenAlnum);
    SpaceBetweenKeeps(x, AlnumThenIdeograph, mark);
    SpaceBetweenKeeps(x, AlnumThenIdeograph, IdeographThenAlnum);
    SpaceBetweenAvoids(x, AlnumThenIdeograph);
    CollapseRunsKeeps(y, mark);
    CollapseRunsKeeps(y, IdeographThenAlnum);
    CollapseRunsKeeps(y, AlnumThenIdeograph);
    CollapseRunsAvoids(y);
    DropSpaceBeforeVisible(t, p);
    SpaceBetweenVisible(d, IdeographThenAlnum);
    SpaceBetweenVisible(x, AlnumThenIdeograph);
    CollapseRunsVisible(y);
  }

  /**
   * The Chinese branch: no whitespace before a Chinese mark, no ideograph next to a Latin letter
   * or digit, no two adjacent whitespace characters, and the visible characters are those of the
   * (possibly corrected) input.
   */
  lemma {:induction false} ConservativeFixTextChinese(text: string, usePycorrector: bool, corrector: Option<string -> string>)
    ensures var r := ConservativeFixText(text, Zh, usePycorrector, corrector).0;
      Avoids(r, SpaceBeforeMark(Cjk)) && Avoids(r, IdeographThenAlnum) && Avoids(r, AlnumThenIdeograph)
      && Avoids(r, DoubleSpace) && Visible(r) == Visible(ConservativeInput(text, Zh, usePycorrector, corrector))
  {
    CjkSpacingAvoids(Prepared(ConservativeInput(text, Zh, usePycorrector, corrector)), Cjk);
  }

  // ---------------------------------------------------------------------------
  // fix_traditional_chinese_typos_dict

  /** The text with `insert` put before every character and at the end: str.replace with an empty pattern. */
  function InsertEverywhere(s: string, insert: string): (r: string)
    ensures insert == [] ==> r == s
    decreases |s|
  {
    if s == [] then insert else insert + [s[0]] + InsertEverywhere(s[1..], insert)
  }

  /**
   * str.replace(pattern, replacement): every non-overlapping occurrence, leftmost first, is
   * replaced, which is what joining the pieces of s.split(pattern) with the replacement gives.
   */
  function ReplaceAll(s: string, pattern: string, replacement: string): (r: string)
    ensures replacement == pattern ==> r == s
  {
    if pattern == [] then InsertEverywhere(s, replacement)
    else
      JoinSplit(s, pattern);
      Join(Split(s, pattern), replacement)
  }

  /** Cutting at the first occurrence, k: the text before it, the replacement, then the rest replaced. */
  lemma {:induction false} ReplaceAllAt(s: string, pattern: string, replacement: string)
    requires pattern != [] && Find(s, pattern).Some?
    ensures Find(s, pattern).value + |pattern| <= |s|
    ensures ReplaceAll(s, pattern, replacement)
      == s[..Find(s, pattern).value] + replacement + ReplaceAll(s[Find(s, pattern).value + |pattern|..], pattern, replacement)
  {
    SplitFirst(s, pattern);
    JoinCons(s[..Find(s, pattern).value], Split(s[Find(s, pattern).value + |pattern|..], pattern), replacement);
  }

  /** A pattern that does not occur leaves the text unchanged. */
  lemma {:induction false} ReplaceAbsent(s: string, pattern: string, replacement: string)
    requires !Contains(s, pattern)
    ensures ReplaceAll(s, pattern, replacement) == s
  {
    assert At(s, [], 0);
  }

  /** The table applied entry by entry, in table order, each as a replace-all. */
  function ApplyTypos(text: string, typos: seq<(string, string)>): (r: string)
    ensures (forall k :: 0 <= k < |typos| ==> typos[k].1 == typos[k].0) ==> r == text
    decreases |typos|
  {
    if typos == [] then text else ApplyTypos(ReplaceAll(text, typos[0].0, typos[0].1), typos[1..])
  }

  /** A text holding none of the table's typos is returned unchanged. */
  lemma {:induction false} ApplyTyposAbsent(text: string, typos: seq<(string, string)>)
    requires forall k :: 0 <= k < |typos| ==> !Contains(text, typos[k].0)
    ensures ApplyTypos(text, typos) == text
    decreases |typos|
  {
    if typos != [] {
      ReplaceAbsent(text, typos[0].0, typos[0].1);
      ApplyTyposAbsent(text, typos[1..]);
    }
  }

  /**
   * fix_traditional_chinese_typos_dict: for each entry in table order, when the typo occurs in
   * the text, replace all its occurrences; report whether the text changed.
   */
  method FixTypos(text: string, typos: seq<(string, string)>) returns (fixed: string, changed: bool)
    ensures fixed == ApplyTypos(text, typos)
    ensures changed <==> fixed != text
  {
    fixed := text;
    var i := 0;
    while i < |typos|
      invariant 0 <= i <= |typos|
      invariant ApplyTypos(fixed, typos[i..]) == ApplyTypos(text, typos)
    {
      var (typo, correct) := typos[i];
      assert typos[i..][1..] == typos[i + 1..];
      if Contains(fixed, typo) {
        fixed := ReplaceAll(fixed, typo, correct);
      } else {
        ReplaceAbsent(fixed, typo, correct);
      }
      i := i + 1;
    }
    changed := fixed != text;
  }

  // ---------------------------------------------------------------------------
  // fix_chinese_text

  /** The text fix_chinese_text normalises: the typo table applied, then the corrector when the text has three or more characters. */
  function ChineseInput(text: string, typos: seq<(string, string)>, corrector: Option<string -> string>): (r: string)
    ensures corrector.None? ==> r == ApplyTypos(text, typos)
  {
    var t := ApplyTypos(text, typos);
    if |t| >= 3 then CorrectWith(corrector, t).0 else t
  }

  /** fix_chinese_text(text, context): the rewritten text and whether it differs from the input; `context` is never read. */
  function FixChineseText(text: string, context: string, typos: seq<(string, string)>, corrector: Option<string -> string>)
    : (r: (string, bool))
    ensures r.1 <==> r.0 != text
    ensures IsStripped(r.0)
  {
    var out := Strip(CjkSpacing(ChineseInput(text, typos, corrector), CjkEnum));
    (out, out != text)
  }

  /**
   * fix_chinese_text: no whitespace before `，。！？；：、`, no ideograph next to a Latin letter or
   * digit, no two adjacent whitespace characters, and only whitespace differs from the corrected text.
   */
  lemma {:induction false} FixChineseTextSpacing(text: string, context: string, typos: seq<(string, string)>, corrector: Option<string -> string>)
    ensures var r := FixChineseText(text, context, typos, corrector).0;
      Avoids(r, SpaceBeforeMark(CjkEnum)) && Avoids(r, IdeographThenAlnum) && Avoids(r, AlnumThenIdeograph)
      && Avoids(r, DoubleSpace) && Visible(r) == Visible(ChineseInput(text, typos, corrector))
  {
    var c := CjkSpacing(ChineseInput(text, typos, corrector), CjkEnum);
    CjkSpacingAvoids(ChineseInput(text, typos, corrector), CjkEnum);
    StripAvoids(c, SpaceBeforeMark(CjkEnum));
    StripAvoids(c, IdeographThenAlnum);
    StripAvoids(c, AlnumThenIdeograph);
    StripAvoids(c, DoubleSpace);
    StripVisible(c);
  }

  // ---------------------------------------------------------------------------
  // fix_english_text

  /** The text before the spelling step: the three punctuation and whitespace rewrites. */
  function EnglishSpacing(text: string): string {
    CollapseRuns(SpaceAfterMarks(DropSpaceBefore(text, Latin)))
  }

  /** The spelling step: when the spell checker is present, every word corrected and rejoined with single spaces. */
  function Respell(t: string, speller: Option<string -> string>): string {
    match speller
    case None => t
    case Some(fix) => Join(seq(|Words(t)|, k requires 0 <= k < |Words(t)| => fix(Words(t)[k])), " ")
  }

  /**
   * fix_english_text(text, context, use_languagetool): punctuation spacing, optional spelling,
   * capitalisation, optional grammar correction; the flag says whether the text changed.
   */
  function FixEnglishText(text: string, context: string, useLanguageTool: bool,
                          speller: Option<string -> string>, grammar: Option<string -> string>): (r: (string, bool))
    ensures r.1 <==> r.0 != text
    ensures !(useLanguageTool && grammar.Some?) ==> r.0 == [] || !IsLower(r.0[0])
  {
    var t := CapitalizeFirst(Respell(EnglishSpacing(text), speller));
    var out := if useLanguageTool && grammar.Some? then grammar.value(t) else t;
    (out, out != text)
  }

  /**
   * Without the spell checker and the grammar tool, English text that starts with a visible
   * character keeps its visible characters (the first capitalised) and has no two adjacent
   * whitespace characters.
   */
  lemma {:induction false} FixEnglishTextSpacing(text: string, context: string, useLanguageTool: bool, grammar: Option<string -> string>)
    requires text == [] || !IsSpace(text[0])
    requires !(useLanguageTool && grammar.Some?)
    ensures var r := FixEnglishText(text, context, useLanguageTool, None, grammar).0;
      Avoids(r, DoubleSpace) && Visible(r) == CapitalizeFirst(Visible(text))
  {
    LatinSpacingVisible(text);
  }
}
