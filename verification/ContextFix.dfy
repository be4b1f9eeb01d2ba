/**
 * fix_text_with_context: every cue's text goes through the Chinese or the English fixer,
 * chosen by the language of that text, and is replaced when the fixer reports a change.  The
 * neighbouring cues' texts are gathered into a context string first, as the script does, but
 * neither fixer reads it.
 */
module ContextFix {
  import opened Wrappers
  import opened Text
  import opened Subtitles
  import opened Normalize

  /** The typo table, the optional correctors and the use_languagetool option the pass hands to the fixers. */
  datatype Fixers = Fixers(
    typos: seq<(string, string)>,
    chinese: Option<string -> string>,
    speller: Option<string -> string>,
    grammar: Option<string -> string>,
    useLanguageTool: bool)

  /** The fixer for the text's language, with the context it is given. */
  function FixContent(content: string, context: string, fx: Fixers): (r: (string, bool))
    ensures r.1 <==> r.0 != content
  {
    if DetectLanguage(content) == Zh then FixChineseText(content, context, fx.typos, fx.chinese)
    else FixEnglishText(content, context, fx.useLanguageTool, fx.speller, fx.grammar)
  }

  /** Neither fixer reads the context: any two contexts give the same result. */
  lemma {:induction false} ContextUnused(content: string, c1: string, c2: string, fx: Fixers)
    ensures FixContent(content, c1, fx) == FixContent(content, c2, fx)
  {
  }

  /** A cue after the pass: its text replaced by the fixer's output when that reports a change. */
  function FixedCue(c: Cue, fx: Fixers): (r: Cue)
    ensures r.index == c.index && r.start == c.start && r.end == c.end
    ensures r.content == FixContent(c.content, [], fx).0
  {
    var (text, changed) := FixContent(c.content, [], fx);
    if changed then c.(content := text) else c
  }

  /** A cue is left as it was exactly when the fixer reports no change to its text. */
  lemma {:induction false} FixedCueSame(c: Cue, fx: Fixers)
    ensures FixedCue(c, fx) == c <==> !FixContent(c.content, [], fx).1
  {
    var (text, changed) := FixContent(c.content, [], fx);
    assert FixedCue(c, fx) == if changed then c.(content := text) else c;
  }

  /** The number of cues that a per-cue rewrite f changes. */
  function CountChanged(cs: seq<Cue>, f: Cue -> Cue): (n: nat)
    ensures n <= |cs|
  {
    if cs == [] then 0
    else CountChanged(cs[..|cs| - 1], f) + (if f(cs[|cs| - 1]) != cs[|cs| - 1] then 1 else 0)
  }

  /** Counting one cue further adds one when the rewrite changes that cue. */
  lemma {:induction false} CountChangedStep(cs: seq<Cue>, i: nat, f: Cue -> Cue)
    requires i < |cs|
    ensures CountChanged(cs[..i + 1], f) == CountChanged(cs[..i], f) + (if f(cs[i]) != cs[i] then 1 else 0)
  {
    assert cs[..i + 1][..i] == cs[..i];
  }

  /** Nothing is counted exactly when the rewrite leaves every cue as it was. */
  lemma {:induction false} CountChangedZero(cs: seq<Cue>, f: Cue -> Cue)
    ensures CountChanged(cs, f) == 0 <==> forall k :: 0 <= k < |cs| ==> f(cs[k]) == cs[k]
    decreases |cs|
  {
    if cs != [] {
      var init := cs[..|cs| - 1];
      CountChangedZero(init, f);
      assert forall k :: 0 <= k < |init| ==> init[k] == cs[k];
    }
  }

  /**
   * The indices of subs[max(0, i - w) : min(n, i + w + 1)] other than i itself.  A Python
   * slice bound that is negative counts from the end of the list, which happens here only
   * when the window size is negative.
   */
  function Window(n: nat, i: nat, w: int): (r: seq<nat>)
    ensures forall j :: 0 <= j < |r| ==> r[j] < n && r[j] != i
  {
    var lo := Min(Max(0, i - w), n);
    var stop := i + w + 1;
    var hi := if stop < 0 then Max(0, stop + n) else Min(stop, n);
    Indices(lo, hi, i)
  }

  /** The numbers from lo up to hi, skipping `skip`. */
  function Indices(lo: nat, hi: nat, skip: nat): (r: seq<nat>)
    ensures forall j :: 0 <= j < |r| ==> lo <= r[j] < hi && r[j] != skip
    ensures forall k :: lo <= k < hi && k != skip ==> k in r
    decreases hi - lo
  {
    if lo >= hi then []
    else if lo == skip then Indices(lo + 1, hi, skip)
    else [lo] + Indices(lo + 1, hi, skip)
  }

  /** For a window size w >= 0, the context of cue i is every other cue at most w places away. */
  lemma {:induction false} WindowMembers(n: nat, i: nat, w: int, k: int)
    requires i < n && w >= 0
    ensures k in Window(n, i, w) <==> 0 <= k < n && k != i && i - w <= k <= i + w
  {
  }

  /** The context string: the texts of the window's cues joined with spaces. */
  function Context(cues: seq<Cue>, i: nat, w: int): string
    requires i < |cues|
  {
    var idx := Window(|cues|, i, w);
    Join(seq(|idx|, j requires 0 <= j < |idx| => cues[idx[j]].content), " ")
  }

  /**
   * One step of fix_text_with_context: the context of cue i is built from the current texts,
   * the fixer runs on cue i's text, and the text is replaced when the fixer reports a change.
   */
  method FixCueInContext(subs: array<Cue>, i: nat, window: int, fx: Fixers) returns (changed: bool)
    requires i < subs.Length
    modifies subs
    ensures subs[..] == old(subs[..])[i := FixedCue(old(subs[i]), fx)]
    ensures changed <==> FixedCue(old(subs[i]), fx) != old(subs[i])
  {
    var context := Context(subs[..], i, window);
    var sub := subs[i];
    var text;
    text, changed := FixContent(sub.content, context, fx).0, FixContent(sub.content, context, fx).1;
    ContextUnused(sub.content, context, [], fx);
    FixedCueSame(sub, fx);
    assert FixedCue(sub, fx) == if changed then sub.(content := text) else sub;
    if changed {
      subs[i] := sub.(content := text);
    }
  }

  /**
   * fix_text_with_context(subs, window_size, use_languagetool): each cue in turn, its context
   * built from the current texts of its neighbours, its text replaced when the fixer reports a
   * change; the result is the number of cues changed.
   */
  method FixTextWithContext(subs: array<Cue>, window: int, fx: Fixers) returns (total: nat)
    modifies subs
    ensures forall k :: 0 <= k < subs.Length ==> subs[k] == FixedCue(old(subs[k]), fx)
    ensures total == CountChanged(old(subs[..]), c => FixedCue(c, fx)) && total <= subs.Length
  {
    ghost var before := subs[..];
    ghost var f := (c: Cue) => FixedCue(c, fx);
    total := 0;
    for i := 0 to subs.Length
      invariant forall k :: 0 <= k < i ==> subs[k] == FixedCue(before[k], fx)
      invariant forall k :: i <= k < subs.Length ==> subs[k] == before[k]
      invariant total == CountChanged(before[..i], f)
    {
      CountChangedStep(before, i, f);
      ghost var prev := subs[..];
      var changed := FixCueInContext(subs, i, window, fx);
      assert forall k :: 0 <= k < subs.Length && k != i ==> subs[k] == prev[k];
      assert subs[i] == f(before[i]);
      if changed {
        total := total + 1;
      }
    }
    assert before[..subs.Length] == before;
  }
}
