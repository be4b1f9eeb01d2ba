/**
 * parse_srt and build_vtt of srt_to_vtt.py: a SubRip text cut into blocks at blank lines,
 * each block's first timing line searched for two clock times, and the cues written back
 * out as a WebVTT file (the WEBVTT signature line, an optional LANG line, then one block per
 * cue: its timing line "start --> end" and its text lines, no cue identifiers).
 */
module Vtt {
  import opened Wrappers
  import opened Text
  import opened Timestamp
  import opened VttTime

  /** One cue as the converter passes it on: its two timestamps and its text. */
  datatype VttCue = VttCue(start: string, end: string, text: string)

  /** What parse_srt guarantees of a cue: WebVTT timestamps hh:mm:ss.ttt and a stripped text. */
  predicate Normal(c: VttCue) {
    Matches(c.start, '.') && Matches(c.end, '.') && IsStripped(c.text)
  }

  // ---------------------------------------------------------------------------
  // The timing pattern (\d{1,2}:\d{2}:\d{2}[,\.]\d{1,3})\s*-->\s*(\d{1,2}:\d{2}:\d{2}[,\.]\d{1,3})

  /** The number of digits at s[i..], at most `cap`. */
  function DigitRun(s: string, i: nat, cap: nat): (n: nat)
    requires i <= |s|
    ensures n <= cap && i + n <= |s|
    ensures forall j :: i <= j < i + n ==> IsDigit(s[j])
    ensures n < cap && i + n < |s| ==> !IsDigit(s[i + n])
    decreases cap
  {
    if cap == 0 || i == |s| || !IsDigit(s[i]) then 0 else 1 + DigitRun(s, i + 1, cap - 1)
  }

  /** A clock time with an hour field of one or two digits. */
  predicate IsClock(t: string) {
    ClockTime(t, 1) || ClockTime(t, 2)
  }

  /**
   * The end of a match of \d{1,2}:\d{2}:\d{2}[,\.]\d{1,3} at i, both digit counts taken
   * greedily.  Backtracking to fewer digits never finds another match: one hour digit
   * fewer leaves a digit where ':' is needed, and in the first clock time one fraction digit
   * fewer leaves a digit where whitespace or "-->" is needed.
   */
  function ClockEnd(s: string, i: nat): (r: Option<nat>)
    requires i <= |s|
    ensures r.Some? ==> i < r.value <= |s| && IsClock(s[i..r.value])
  {
    var h := DigitRun(s, i, 2);
    var j := i + h;
    if h == 0 || j + 7 > |s| then None
    else if s[j] == ':' && IsDigit(s[j + 1]) && IsDigit(s[j + 2]) && s[j + 3] == ':'
      && IsDigit(s[j + 4]) && IsDigit(s[j + 5]) && (s[j + 6] == ',' || s[j + 6] == '.') then
      var f := DigitRun(s, j + 7, 3);
      if f == 0 then None
      else
        var e := j + 7 + f;
        ClockSlice(s, i, h, f, e);
        Some(e)
    else None
  }

  /** Hour digits, the fixed middle and fraction digits found in place make a clock time. */
  lemma {:induction false} ClockSlice(s: string, i: nat, h: nat, f: nat, e: nat)
    requires 1 <= h <= 2 && 1 <= f <= 3 && e == i + h + 7 + f <= |s|
    requires forall k :: i <= k < i + h ==> IsDigit(s[k])
    requires forall k :: i + h + 7 <= k < i + h + 7 + f ==> IsDigit(s[k])
    requires s[i + h] == ':' && IsDigit(s[i + h + 1]) && IsDigit(s[i + h + 2]) && s[i + h + 3] == ':'
    requires IsDigit(s[i + h + 4]) && IsDigit(s[i + h + 5]) && (s[i + h + 6] == ',' || s[i + h + 6] == '.')
    ensures IsClock(s[i..e])
  {
    var t := s[i..e];
    var hours, fraction := t[..h], t[h + 7..];
    forall k | 0 <= k < |hours|
      ensures IsDigit(hours[k])
    {
      assert hours[k] == s[i + k];
    }
    forall k | 0 <= k < |fraction|
      ensures IsDigit(fraction[k])
    {
      assert fraction[k] == s[i + h + 7 + k];
    }
    assert t[h] == s[i + h] && t[h + 1] == s[i + h + 1] && t[h + 2] == s[i + h + 2] && t[h + 3] == s[i + h + 3];
    assert t[h + 4] == s[i + h + 4] && t[h + 5] == s[i + h + 5] && t[h + 6] == s[i + h + 6];
    assert ClockTime(t, h);
  }

  /** The end of the run of whitespace (\s*) starting at i. */
  function SkipSpace(s: string, i: nat): (j: nat)
    requires i <= |s|
    ensures i <= j <= |s| && (j < |s| ==> !IsSpace(s[j]))
    decreases |s| - i
  {
    if i < |s| && IsSpace(s[i]) then SkipSpace(s, i + 1) else i
  }

  /** Everything SkipSpace passes over is whitespace. */
  lemma {:induction false} SkipSpaceRun(s: string, i: nat)
    requires i <= |s|
    ensures forall k :: i <= k < SkipSpace(s, i) ==> IsSpace(s[k])
    decreases |s| - i
  {
    if i < |s| && IsSpace(s[i]) {
      SkipSpaceRun(s, i + 1);
    }
  }

  /** A match of the timing pattern at i: the two clock times it captures. */
  function TimingAt(s: string, i: nat): (r: Option<(string, string)>)
    requires i <= |s|
    ensures r.Some? ==> IsClock(r.value.0) && IsClock(r.value.1)
  {
    match ClockEnd(s, i)
    case None => None
    case Some(e) =>
      var a := SkipSpace(s, e);
      if !At(s, "-->", a) then None
      else
        var b := SkipSpace(s, a + 3);
        match ClockEnd(s, b)
        case None => None
        case Some(e2) => Some((s[i..e], s[b..e2]))
  }

  /** time_re.search(line): the match at the first position that has one. */
  function SearchTiming(s: string, i: nat): (r: Option<(string, string)>)
    requires i <= |s|
    ensures r.Some? ==> IsClock(r.value.0) && IsClock(r.value.1)
    decreases |s| - i
  {
    match TimingAt(s, i)
    case Some(m) => Some(m)
    case None => if i == |s| then None else SearchTiming(s, i + 1)
  }

  /** The hour width of a clock time. */
  function HourWidth(t: string): (h: nat)
    requires IsClock(t)
    ensures ClockTime(t, h)
  {
    if ClockTime(t, 1) then 1 else 2
  }

  /**
   * normalize_time on a clock time the pattern captured: a WebVTT timestamp (that it is
   * what normalize_time returns is NormalizedTime below).
   */
  function Normalized(t: string): (r: string)
    requires IsClock(t)
    ensures Matches(r, '.')
  {
    NormalClockValue(t, HourWidth(t));
    NormalClock(t, HourWidth(t))
  }

  /**
   * normalize_time never fails on a clock time the pattern captured, and returns a WebVTT
   * timestamp for the same time, the fraction read as a decimal fraction of a second.
   */
  lemma {:induction false} NormalizedTime(t: string)
    requires IsClock(t)
    ensures NormalizeTime(t) == Some(Normalized(t))
    ensures MatchedTime(Normalized(t)) == ClockMillis(t, HourWidth(t))
  {
    NormalizeClock(t, HourWidth(t));
  }

  // ---------------------------------------------------------------------------
  // Blocks: re.split(r'\r?\n\s*\r?\n', text)

  /** Where a line break \r?\n starting at p ends. */
  function NewlineEnd(s: string, p: nat): (q: Option<nat>)
    requires p <= |s|
    ensures q.Some? ==> p < q.value <= |s| && s[q.value - 1] == '\n' && (s[p] == '\n' || s[p] == '\r')
    ensures (p < |s| && s[p] == '\n') ==> q == Some(p + 1)
  {
    if p < |s| && s[p] == '\n' then Some(p + 1)
    else if p + 1 < |s| && s[p] == '\r' && s[p + 1] == '\n' then Some(p + 2)
    else None
  }

  /** The position of the last '\n' in s[lo..hi]. */
  function LastNewline(s: string, lo: nat, hi: nat): (t: Option<nat>)
    requires lo <= hi <= |s|
    ensures t.Some? ==> lo <= t.value < hi && s[t.value] == '\n'
    decreases hi - lo
  {
    if hi == lo then None else if s[hi - 1] == '\n' then Some(hi - 1) else LastNewline(s, lo, hi - 1)
  }

  /** LastNewline finds nothing exactly when s[lo..hi] holds no '\n'. */
  lemma {:induction false} LastNewlineNone(s: string, lo: nat, hi: nat)
    requires lo <= hi <= |s|
    ensures LastNewline(s, lo, hi).None? <==> forall k :: lo <= k < hi ==> s[k] != '\n'
    decreases hi - lo
  {
    if hi > lo && s[hi - 1] != '\n' {
      LastNewlineNone(s, lo, hi - 1);
    }
  }

  /**
   * The end of a match of \r?\n\s*\r?\n at p.  The greedy \s* takes the whole run of
   * whitespace after the first line break and gives back characters until \r?\n matches,
   * so the match ends just after the last '\n' of that run.
   */
  function BreakEnd(s: string, p: nat): (e: Option<nat>)
    requires p <= |s|
    ensures e.Some? ==> p < e.value <= |s|
  {
    match NewlineEnd(s, p)
    case None => None
    case Some(q) =>
      match LastNewline(s, q, SkipSpace(s, q))
      case None => None
      case Some(t) => Some(t + 1)
  }

  /** The leftmost match of the block separator at or after p, as (start, end). */
  function FirstBreak(s: string, p: nat): (r: Option<(nat, nat)>)
    requires p <= |s|
    ensures r.Some? ==> p <= r.value.0 < r.value.1 <= |s| && BreakEnd(s, r.value.0) == Some(r.value.1)
    decreases |s| - p
  {
    match BreakEnd(s, p)
    case Some(e) => Some((p, e))
    case None => if p == |s| then None else FirstBreak(s, p + 1)
  }

  /** The match FirstBreak reports is the leftmost one; when it reports none, there is none. */
  lemma {:induction false} FirstBreakLeftmost(s: string, p: nat)
    requires p <= |s|
    ensures FirstBreak(s, p).Some? ==> forall k :: p <= k < FirstBreak(s, p).value.0 ==> BreakEnd(s, k).None?
    ensures FirstBreak(s, p).None? ==> forall k :: p <= k <= |s| ==> BreakEnd(s, k).None?
    decreases |s| - p
  {
    if BreakEnd(s, p).None? && p < |s| {
      assert FirstBreak(s, p) == FirstBreak(s, p + 1);
      FirstBreakLeftmost(s, p + 1);
    }
  }

  /**
   * re.split of the separator: the pieces between successive leftmost matches.  The rest
   * is searched as a text of its own, which is the same thing because a match at a
   * position depends only on the text from there on.
   */
  function SplitBlocks(s: string): (r: seq<string>)
    ensures |r| >= 1
    decreases |s|
  {
    match FirstBreak(s, 0)
    case None => [s]
    case Some((a, e)) => [s[..a]] + SplitBlocks(s[e..])
  }

  // ---------------------------------------------------------------------------
  // parse_srt

  /** The lines l with l.strip() != '', that is, with a character other than whitespace. */
  function NonBlank(lines: seq<string>): (r: seq<string>)
    ensures |r| <= |lines|
  {
    if lines == [] then []
    else if !AllSpace(lines[0]) then [lines[0]] + NonBlank(lines[1..])
    else NonBlank(lines[1..])
  }

  /** A line strips to nothing exactly when it is all whitespace. */
  lemma {:induction false} StripEmpty(l: string)
    ensures Strip(l) == [] <==> AllSpace(l)
  {
    LstripParts(l);
    RstripParts(Lstrip(l));
  }

  /** The lines NonBlank keeps are exactly the lines l with l.strip() != ''. */
  lemma {:induction false} NonBlankKept(lines: seq<string>)
    ensures forall l :: l in NonBlank(lines) <==> l in lines && Strip(l) != []
    decreases |lines|
  {
    if lines != [] {
      NonBlankKept(lines[1..]);
      StripEmpty(lines[0]);
      assert lines == [lines[0]] + lines[1..];
    }
  }

  /** The index of the first line holding "-->". */
  function ArrowLine(lines: seq<string>): (r: Option<nat>)
    ensures r.Some? ==> r.value < |lines| && Contains(lines[r.value], "-->")
    ensures r.Some? ==> forall k :: 0 <= k < r.value ==> !Contains(lines[k], "-->")
    ensures r.None? ==> forall k :: 0 <= k < |lines| ==> !Contains(lines[k], "-->")
  {
    if lines == [] then None
    else if Contains(lines[0], "-->") then Some(0)
    else match ArrowLine(lines[1..])
      case None => None
      case Some(k) => Some(k + 1)
  }

  /**
   * The cue of a block's non-blank lines: None when no line holds "-->" or when the first
   * such line does not match the timing pattern; otherwise the two clock times normalised
   * and the lines after the timing line, joined with '\n' and stripped.
   */
  function CueOfLines(lines: seq<string>): (r: Option<VttCue>)
    ensures r.Some? ==> Normal(r.value)
  {
    match ArrowLine(lines)
    case None => None
    case Some(k) =>
      match SearchTiming(lines[k], 0)
      case None => None
      case Some((s, e)) => Some(VttCue(Normalized(s), Normalized(e), Strip(Join(lines[k + 1..], "\n"))))
  }

  /**
   * A block is skipped exactly when none of its lines holds "-->" or the first that does has no
   * timing match; a cue's times are normalize_time of the matched clock times and its text is
   * the lines after that line, joined with '\n' and stripped.
   */
  lemma {:induction false} CueOfLinesCases(lines: seq<string>)
    ensures CueOfLines(lines).Some? <==> ArrowLine(lines).Some? && SearchTiming(lines[ArrowLine(lines).value], 0).Some?
    ensures CueOfLines(lines).Some? ==>
      var k := ArrowLine(lines).value;
      var (s, e) := SearchTiming(lines[k], 0).value;
      var c := CueOfLines(lines).value;
      NormalizeTime(s) == Some(c.start) && NormalizeTime(e) == Some(c.end)
      && c.text == Strip(Join(lines[k + 1..], "\n")) && IsStripped(c.text)
  {
    match ArrowLine(lines)
    case None =>
    case Some(k) =>
      match SearchTiming(lines[k], 0)
      case None =>
      case Some((s, e)) =>
        var text := Strip(Join(lines[k + 1..], "\n"));
        assert CueOfLines(lines) == Some(VttCue(Normalized(s), Normalized(e), text));
        NormalizedTime(s);
        NormalizedTime(e);
  }

  /** One block of the file: the cue of its non-blank lines. */
  function ParseBlock(b: string): (r: Option<VttCue>)
    ensures r.Some? ==> Normal(r.value)
  {
    CueOfLines(NonBlank(SplitLines(b)))
  }

  /** The values of the entries that are present, in order. */
  function Somes<T(==)>(xs: seq<Option<T>>): (r: seq<T>)
    ensures |r| <= |xs|
    ensures forall k :: 0 <= k < |r| ==> Some(r[k]) in xs
  {
    if xs == [] then []
    else if xs[0].Some? then [xs[0].value] + Somes(xs[1..])
    else Somes(xs[1..])
  }

  /** Each block parsed on its own. */
  function ParseEach(blocks: seq<string>): (r: seq<Option<VttCue>>)
    ensures |r| == |blocks| && forall k :: 0 <= k < |r| ==> r[k] == ParseBlock(blocks[k])
  {
    seq(|blocks|, k requires 0 <= k < |blocks| => ParseBlock(blocks[k]))
  }

  /** Only normal cues come out of a list of parsed blocks whose cues are all normal. */
  lemma {:induction false} SomesNormal(cues: seq<Option<VttCue>>)
    requires forall k :: 0 <= k < |cues| && cues[k].Some? ==> Normal(cues[k].value)
    ensures forall k :: 0 <= k < |Somes(cues)| ==> Normal(Somes(cues)[k])
  {
  }

  /**
   * parse_srt(content): at most one cue per block, every cue's timestamps WebVTT
   * timestamps hh:mm:ss.ttt and its text stripped.
   */
  function ParseSrt(content: string): (r: seq<VttCue>)
    ensures |r| <= |SplitBlocks(Strip(content))|
    ensures forall k :: 0 <= k < |r| ==> Normal(r[k])
  {
    var cues := ParseEach(SplitBlocks(Strip(content)));
    assert forall k :: 0 <= k < |cues| && cues[k].Some? ==> Normal(cues[k].value);
    SomesNormal(cues);
    Somes(cues)
  }

  // ---------------------------------------------------------------------------
  // build_vtt

  /** The cue timing line. */
  function TimingLine(c: VttCue): string {
    c.start + " --> " + c.end
  }

  /** Python's truthiness of the optional language: present and not empty. */
  predicate HasLang(lang: Option<string>) {
    lang.Some? && lang.value != []
  }

  /** The groups of lines build_vtt writes, each followed by an empty line. */
  function Groups(cues: seq<VttCue>, lang: Option<string>): (gs: seq<seq<string>>)
    ensures |gs| == 1 + (if HasLang(lang) then 1 else 0) + |cues|
  {
    [["WEBVTT"]] + (if HasLang(lang) then [["LANG: " + lang.value]] else [])
    + seq(|cues|, k requires 0 <= k < |cues| => [TimingLine(cues[k])] + Split(cues[k].text, "\n"))
  }

  /** The groups one after another, an empty line after each. */
  function Lines(gs: seq<seq<string>>): seq<string> {
    if gs == [] then [] else gs[0] + [""] + Lines(gs[1..])
  }

  /** build_vtt(cues, lang): the lines joined with '\n'.  The file opens with the signature line and ends with a line break. */
  function BuildVtt(cues: seq<VttCue>, lang: Option<string>): (r: string)
    ensures |r| >= 7 && r[..7] == "WEBVTT\n" && r[|r| - 1] == '\n'
  {
    WrittenShape(cues, lang);
    Join(Lines(Groups(cues, lang)), "\n")
  }

  // ---------------------------------------------------------------------------
  // The file build_vtt writes, as blocks

  /** A cue's block: its timing line, then its text. */
  function CueBlock(c: VttCue): string {
    TimingLine(c) + "\n" + c.text
  }

  /** The blocks before the cues: the signature, and the LANG block when a language is given. */
  function SignatureBlocks(lang: Option<string>): seq<string> {
    ["WEBVTT"] + (if HasLang(lang) then ["LANG: " + lang.value] else [])
  }

  /** One block per cue. */
  function CueBlocks(cues: seq<VttCue>): (bs: seq<string>)
    ensures |bs| == |cues| && forall k :: 0 <= k < |cues| ==> bs[k] == CueBlock(cues[k])
  {
    seq(|cues|, k requires 0 <= k < |cues| => CueBlock(cues[k]))
  }

  /** The blocks of the file. */
  function WrittenBlocks(cues: seq<VttCue>, lang: Option<string>): seq<string> {
    SignatureBlocks(lang) + CueBlocks(cues)
  }

  /** Joining two non-empty lists of parts is joining each and putting the separator between. */
  lemma {:induction false} JoinAppend(a: seq<string>, b: seq<string>, sep: string)
    requires a != [] && b != []
    ensures Join(a + b, sep) == Join(a, sep) + sep + Join(b, sep)
    decreases |a|
  {
    if |a| == 1 {
      assert (a + b)[1..] == b;
    } else {
      assert (a + b)[1..] == a[1..] + b;
      JoinAppend(a[1..], b, sep);
    }
  }

  /** One group of lines, an empty line, then further lines, joined with '\n'. */
  lemma {:induction false} JoinGroup(g: seq<string>, tail: seq<string>)
    requires g != []
    ensures tail == [] ==> Join(g + [""] + tail, "\n") == Join(g, "\n") + "\n"
    ensures tail != [] ==> Join(g + [""] + tail, "\n") == Join(g, "\n") + "\n\n" + Join(tail, "\n")
  {
    if tail == [] {
      assert g + [""] + tail == g + [""];
      JoinAppend(g, [""], "\n");
    } else {
      assert g + [""] + tail == g + ([""] + tail);
      JoinAppend(g, [""] + tail, "\n");
      JoinCons("", tail, "\n");
    }
  }

  /** Groups of lines, each followed by an empty line and all joined with '\n', are their paragraphs joined with blank lines, then a final '\n'. */
  lemma {:induction false} JoinLines(gs: seq<seq<string>>)
    requires gs != [] && forall k :: 0 <= k < |gs| ==> gs[k] != []
    ensures Join(Lines(gs), "\n") == Join(seq(|gs|, k requires 0 <= k < |gs| => Join(gs[k], "\n")), "\n\n") + "\n"
    decreases |gs|
  {
    var paras := seq(|gs|, k requires 0 <= k < |gs| => Join(gs[k], "\n"));
    var rest := gs[1..];
    assert Lines(gs) == gs[0] + [""] + Lines(rest);
    if rest == [] {
      JoinGroup(gs[0], []);
      assert Join(paras, "\n\n") == paras[0];
    } else {
      JoinLines(rest);
      var tail := Lines(rest);
      assert tail != [] by {
        assert tail == rest[0] + [""] + Lines(rest[1..]);
      }
      JoinGroup(gs[0], tail);
      var restParas := seq(|rest|, k requires 0 <= k < |rest| => Join(rest[k], "\n"));
      assert paras == [paras[0]] + restParas;
      JoinCons(paras[0], restParas, "\n\n");
    }
  }

  /** A cue's lines joined with '\n' are its block. */
  lemma {:induction false} CueLines(c: VttCue)
    ensures Join([TimingLine(c)] + Split(c.text, "\n"), "\n") == CueBlock(c)
  {
    var tl := Split(c.text, "\n");
    JoinSplit(c.text, "\n");
    JoinAppend([TimingLine(c)], tl, "\n");
  }

  /** The lines build_vtt joins open with the signature line and end with an empty line. */
  lemma {:induction false} WrittenShape(cues: seq<VttCue>, lang: Option<string>)
    ensures var s := Join(Lines(Groups(cues, lang)), "\n");
      |s| >= 7 && s[..7] == "WEBVTT\n" && s[|s| - 1] == '\n'
  {
    var gs := Groups(cues, lang);
    forall k | 0 <= k < |gs|
      ensures gs[k] != []
    {
      GroupJoin(cues, lang, k);
    }
    JoinLines(gs);
    var paras := seq(|gs|, k requires 0 <= k < |gs| => Join(gs[k], "\n"));
    assert paras[0] == Join(["WEBVTT"], "\n") == "WEBVTT";
    if |paras| > 1 {
      assert paras == [paras[0]] + paras[1..];
      JoinCons(paras[0], paras[1..], "\n\n");
    }
  }

  /**
   * build_vtt writes its blocks separated by blank lines and ends with a line break,
   * for any cues and any language.
   */
  lemma {:induction false} BuildVttBlocks(cues: seq<VttCue>, lang: Option<string>)
    ensures BuildVtt(cues, lang) == Join(WrittenBlocks(cues, lang), "\n\n") + "\n"
  {
    var gs, bs := Groups(cues, lang), WrittenBlocks(cues, lang);
    assert |bs| == |gs|;
    forall k | 0 <= k < |gs|
      ensures gs[k] != [] && Join(gs[k], "\n") == bs[k]
    {
      GroupJoin(cues, lang, k);
    }
    JoinLines(gs);
    var paras := seq(|gs|, k requires 0 <= k < |gs| => Join(gs[k], "\n"));
    assert paras == bs;
  }

  /** Each group of lines build_vtt writes, joined with '\n', is the corresponding block. */
  lemma {:induction false} GroupJoin(cues: seq<VttCue>, lang: Option<string>, k: nat)
    requires k < |Groups(cues, lang)|
    ensures Groups(cues, lang)[k] != [] && Join(Groups(cues, lang)[k], "\n") == WrittenBlocks(cues, lang)[k]
  {
    var n := if HasLang(lang) then 1 else 0;
    var g, b := Groups(cues, lang)[k], WrittenBlocks(cues, lang)[k];
    if k >= 1 + n {
      var c := cues[k - 1 - n];
      assert g == [TimingLine(c)] + Split(c.text, "\n");
      assert b == CueBlock(c);
      CueLines(c);
    } else if k == 0 {
      assert g == ["WEBVTT"] && b == "WEBVTT";
    } else {
      assert g == ["LANG: " + lang.value] && b == "LANG: " + lang.value;
    }
  }

  // ---------------------------------------------------------------------------
  // Reading the blocks back: re.split and strip()

  /** No match of the block separator \r?\n\s*\r?\n anywhere in s. */
  predicate Unbroken(s: string) {
    forall p :: 0 <= p <= |s| ==> BreakEnd(s, p).None?
  }

  /** A block that re.split and strip() leave whole: not empty, no whitespace at either end, no blank line inside. */
  predicate Solid(b: string) {
    b != [] && !IsSpace(b[0]) && !IsSpace(b[|b| - 1]) && Unbroken(b)
  }

  /** The whitespace run at a position of y is the same run within x + y. */
  lemma {:induction false} SkipSpaceShift(x: string, y: string, i: nat)
    requires i <= |y|
    ensures SkipSpace(x + y, |x| + i) == |x| + SkipSpace(y, i)
  {
    var s, j := x + y, SkipSpace(y, i);
    SkipSpaceRun(y, i);
    SkipSpaceRun(s, |x| + i);
    assert forall k :: 0 <= k < |y| ==> s[|x| + k] == y[k];
    assert forall k :: |x| + i <= k < |x| + j ==> IsSpace(s[k]);
    assert |x| + j < |s| ==> !IsSpace(s[|x| + j]);
  }

  /** A whitespace run that starts inside a text ending in a non-whitespace character stops inside it, whatever follows. */
  lemma {:induction false} SkipSpacePrefix(b: string, z: string, q: nat)
    requires q < |b| && !IsSpace(b[|b| - 1])
    ensures SkipSpace(b + z, q) == SkipSpace(b, q) < |b|
  {
    var s, w := b + z, SkipSpace(b, q);
    SkipSpaceRun(b, q);
    SkipSpaceRun(s, q);
    assert w < |b|;
    assert forall k :: 0 <= k < |b| ==> s[k] == b[k];
    assert forall k :: q <= k < w ==> IsSpace(s[k]);
    assert !IsSpace(s[w]);
  }

  /** LastNewline on a stretch of y finds nothing exactly when it finds nothing on that stretch within x + y. */
  lemma {:induction false} LastNewlineShift(x: string, y: string, lo: nat, hi: nat)
    requires lo <= hi <= |y|
    ensures LastNewline(x + y, |x| + lo, |x| + hi).None? <==> LastNewline(y, lo, hi).None?
    decreases hi - lo
  {
    if hi > lo {
      assert (x + y)[|x| + hi - 1] == y[hi - 1];
      LastNewlineShift(x, y, lo, hi - 1);
    }
  }

  /** The separator matches at a position of y exactly when it matches there within x + y. */
  lemma {:induction false} BreakShift(x: string, y: string, p: nat)
    requires p <= |y|
    ensures BreakEnd(x + y, |x| + p).None? <==> BreakEnd(y, p).None?
  {
    var s := x + y;
    if p < |y| {
      assert s[|x| + p] == y[p];
    }
    if p + 1 < |y| {
      assert s[|x| + p + 1] == y[p + 1];
    }
    if NewlineEnd(y, p).Some? {
      var q := NewlineEnd(y, p).value;
      assert NewlineEnd(s, |x| + p) == Some(|x| + q);
      SkipSpaceShift(x, y, q);
      LastNewlineShift(x, y, q, SkipSpace(y, q));
    } else {
      assert NewlineEnd(s, |x| + p).None?;
    }
  }

  /** Inside a text ending in a non-whitespace character, the separator matches as it does in the text alone. */
  lemma {:induction false} BreakPrefix(b: string, z: string, p: nat)
    requires p < |b| && !IsSpace(b[|b| - 1])
    ensures BreakEnd(b + z, p).None? <==> BreakEnd(b, p).None?
  {
    var s := b + z;
    assert forall k :: 0 <= k < |b| ==> s[k] == b[k];
    if NewlineEnd(b, p).Some? {
      var q := NewlineEnd(b, p).value;
      assert NewlineEnd(s, p) == Some(q);
      assert q < |b|;
      SkipSpacePrefix(b, z, q);
      var w := SkipSpace(b, q);
      LastNewlineNone(s, q, w);
      LastNewlineNone(b, q, w);
    } else {
      assert NewlineEnd(s, p).None?;
    }
  }

  /** Right after a solid block, the separator is the two line breaks build_vtt writes. */
  lemma {:induction false} BreakAfter(b: string, rest: string)
    requires Solid(b) && rest != [] && !IsSpace(rest[0])
    ensures BreakEnd(b + "\n\n" + rest, |b|) == Some(|b| + 2)
  {
    var s := b + "\n\n" + rest;
    assert s[|b|] == '\n' && s[|b| + 1] == '\n' && s[|b| + 2] == rest[0];
    assert SkipSpace(s, |b| + 1) == |b| + 2;
    assert LastNewline(s, |b| + 1, |b| + 2) == Some(|b| + 1);
  }

  /** The leftmost match is found at the first position where the separator matches. */
  lemma {:induction false} FirstBreakAt(s: string, p: nat, a: nat, e: nat)
    requires p <= a <= |s| && BreakEnd(s, a) == Some(e)
    requires forall k :: p <= k < a ==> BreakEnd(s, k).None?
    ensures FirstBreak(s, p) == Some((a, e))
    decreases a - p
  {
    if p < a {
      assert BreakEnd(s, p).None?;
      FirstBreakAt(s, p + 1, a, e);
      assert FirstBreak(s, p) == FirstBreak(s, p + 1);
    }
  }

  /** The first and the last character of a join of non-empty parts. */
  lemma {:induction false} JoinEnds(parts: seq<string>, sep: string)
    requires parts != [] && forall k :: 0 <= k < |parts| ==> parts[k] != []
    ensures Join(parts, sep) != [] && Join(parts, sep)[0] == parts[0][0]
    ensures Join(parts, sep)[|Join(parts, sep)| - 1] == parts[|parts| - 1][|parts[|parts| - 1]| - 1]
    decreases |parts|
  {
    if |parts| > 1 {
      JoinEnds(parts[1..], sep);
    }
  }

  /**
   * A block as build_vtt writes it: solid, or solid and followed by one line break, which is
   * what a cue with empty text becomes (its timing line, then the empty line of its text).
   */
  predicate Loose(b: string) {
    Solid(b) || (b != [] && b[|b| - 1] == '\n' && Solid(b[..|b| - 1]))
  }

  /** What re.split and strip() leave of a loose block: the block without a final line break. */
  function Core(b: string): (r: string)
    ensures Loose(b) ==> Solid(r) && (b == r || b == r + "\n") && b[0] == r[0]
  {
    if b != [] && b[|b| - 1] == '\n' then
      assert b == b[..|b| - 1] + "\n";
      b[..|b| - 1]
    else b
  }

  /** The core of each block. */
  function Cores(bs: seq<string>): (r: seq<string>)
    ensures |r| == |bs| && forall k :: 0 <= k < |bs| ==> r[k] == Core(bs[k])
  {
    seq(|bs|, k requires 0 <= k < |bs| => Core(bs[k]))
  }

  /** The blocks with the last one cut to its core. */
  function Trimmed(bs: seq<string>): (r: seq<string>)
    requires bs != []
  {
    bs[..|bs| - 1] + [Core(bs[|bs| - 1])]
  }

  /** Right after the core of a loose block, the separator runs to the start of the next block. */
  lemma {:induction false} BreakAfterLoose(b: string, rest: string)
    requires Loose(b) && rest != [] && !IsSpace(rest[0])
    ensures BreakEnd(b + "\n\n" + rest, |Core(b)|) == Some(|b| + 2)
  {
    var c := Core(b);
    if b == c {
      BreakAfter(b, rest);
    } else {
      var s := b + "\n\n" + rest;
      assert s == c + "\n\n\n" + rest;
      assert s[|c|] == '\n' && s[|c| + 1] == '\n' && s[|c| + 2] == '\n' && s[|c| + 3] == rest[0];
      assert SkipSpace(s, |c| + 2) == |c| + 3;
      assert SkipSpace(s, |c| + 1) == |c| + 3;
      assert LastNewline(s, |c| + 1, |c| + 3) == Some(|c| + 2);
    }
  }

  /**
   * Loose blocks joined with blank lines, the last one cut to its core, are split back into
   * the cores of the blocks.
   */
  lemma {:induction false} SplitLooseBlocks(bs: seq<string>)
    requires bs != [] && forall k :: 0 <= k < |bs| ==> Loose(bs[k])
    ensures SplitBlocks(Join(Trimmed(bs), "\n\n")) == Cores(bs)
    decreases |bs|
  {
    var b := bs[0];
    var c := Core(b);
    if |bs| == 1 {
      assert Trimmed(bs) == [c];
      assert Join([c], "\n\n") == c;
      assert FirstBreak(c, 0).None?;
      assert Cores(bs) == [c];
    } else {
      var tail := Trimmed(bs[1..]);
      TrimmedCons(bs);
      forall k | 0 <= k < |tail|
        ensures tail[k] != [] && tail[k][0] == bs[k + 1][0]
      {
        assert Loose(bs[k + 1]);
      }
      var rest := Join(tail, "\n\n");
      JoinCons(b, tail, "\n\n");
      JoinEnds(tail, "\n\n");
      var s := b + "\n\n" + rest;
      assert Join(Trimmed(bs), "\n\n") == s;
      FirstLooseBreak(b, rest);
      assert s[..|c|] == c && s[|b| + 2..] == rest;
      assert SplitBlocks(s) == [c] + SplitBlocks(rest);
      SplitLooseBlocks(bs[1..]);
      CoresCons(bs);
    }
  }

  /** Trimming blocks trims the blocks after the first. */
  lemma {:induction false} TrimmedCons(bs: seq<string>)
    requires |bs| > 1
    ensures Trimmed(bs) == [bs[0]] + Trimmed(bs[1..])
  {
    assert bs[1..][..|bs| - 2] == bs[1..|bs| - 1];
    assert bs[..|bs| - 1] == [bs[0]] + bs[1..|bs| - 1];
  }

  /** The cores of blocks are the core of the first and the cores of the rest. */
  lemma {:induction false} CoresCons(bs: seq<string>)
    requires bs != []
    ensures Cores(bs) == [Core(bs[0])] + Cores(bs[1..])
  {
    assert forall k :: 1 <= k < |bs| ==> Cores(bs)[k] == Cores(bs[1..])[k - 1];
  }

  /** The first separator after a loose block runs from the end of its core to the next block. */
  lemma {:induction false} FirstLooseBreak(b: string, rest: string)
    requires Loose(b) && rest != [] && !IsSpace(rest[0])
    ensures FirstBreak(b + "\n\n" + rest, 0) == Some((|Core(b)|, |b| + 2))
  {
    var c := Core(b);
    var s := b + "\n\n" + rest;
    assert s == c + s[|c|..];
    forall p | 0 <= p < |c|
      ensures BreakEnd(s, p).None?
    {
      assert BreakEnd(c, p).None?;
      BreakPrefix(c, s[|c|..], p);
    }
    BreakAfterLoose(b, rest);
    FirstBreakAt(s, 0, |c|, |b| + 2);
  }

  /** strip() of a text without whitespace at either end, followed by one or two line breaks, is that text. */
  lemma {:induction false} StripFinalBreaks(x: string, w: string)
    requires x != [] && !IsSpace(x[0]) && !IsSpace(x[|x| - 1])
    requires w == "\n" || w == "\n\n"
    ensures Strip(x + w) == x
  {
    var s := x + w;
    assert Lstrip(s) == s;
    assert Rstrip(x) == x;
    if w == "\n" {
      assert s[..|s| - 1] == x;
    } else {
      var y := x + "\n";
      assert s[..|s| - 1] == y;
      assert y[..|y| - 1] == x;
      assert Rstrip(y) == x;
    }
  }

  /** Joining parts whose last one carries extra characters carries them at the end. */
  lemma {:induction false} JoinLastExtended(init: seq<string>, c: string, w: string, sep: string)
    ensures Join(init + [c + w], sep) == Join(init + [c], sep) + w
  {
    if init == [] {
      assert Join([c + w], sep) == c + w;
      assert Join([c], sep) == c;
    } else {
      JoinAppend(init, [c + w], sep);
      JoinAppend(init, [c], sep);
      assert Join([c + w], sep) == c + w;
      assert Join([c], sep) == c;
    }
  }

  /** strip() of loose blocks joined with blank lines and ended with a line break: the last block cut to its core. */
  lemma {:induction false} StripLooseJoin(bs: seq<string>)
    requires bs != [] && forall k :: 0 <= k < |bs| ==> Loose(bs[k])
    ensures Strip(Join(bs, "\n\n") + "\n") == Join(Trimmed(bs), "\n\n")
  {
    var n := |bs|;
    var init, c := bs[..n - 1], Core(bs[n - 1]);
    var t := Trimmed(bs);
    assert t == init + [c];
    forall k | 0 <= k < |t|
      ensures t[k] != [] && t[k][0] == bs[k][0]
    {
      assert Loose(bs[k]);
    }
    JoinEnds(t, "\n\n");
    var x := Join(t, "\n\n");
    assert x[|x| - 1] == c[|c| - 1];
    if bs[n - 1] == c {
      assert bs == t;
      StripFinalBreaks(x, "\n");
    } else {
      assert bs == init + [c + "\n"];
      JoinLastExtended(init, c, "\n", "\n\n");
      assert Join(bs, "\n\n") + "\n" == x + "\n\n";
      StripFinalBreaks(x, "\n\n");
    }
  }

  // ---------------------------------------------------------------------------
  // Reading one block back

  /** A line as build_vtt writes cue text: something other than whitespace, and no line boundary. */
  predicate TextLine(l: string) {
    !AllSpace(l) && forall j :: 0 <= j < |l| ==> !IsLineBreak(l[j])
  }

  /** splitlines() gives back lines joined with '\n'. */
  lemma {:induction false} SplitLinesJoin(ls: seq<string>)
    requires ls != [] && forall k :: 0 <= k < |ls| ==> TextLine(ls[k])
    ensures SplitLines(Join(ls, "\n")) == ls
    decreases |ls|
  {
    var l := ls[0];
    assert TextLine(l);
    if |ls| == 1 {
      assert LineEnd(l) == |l|;
    } else {
      var rest := Join(ls[1..], "\n");
      var s := l + "\n" + rest;
      assert Join(ls, "\n") == s;
      LineEndBeforeBreak(l, rest);
      assert s[|l|] == '\n';
      assert s[..|l|] == l && s[|l| + 1..] == rest;
      SplitLinesJoin(ls[1..]);
    }
  }

  /** A line without boundaries followed by '\n' ends where the '\n' stands. */
  lemma {:induction false} LineEndBeforeBreak(l: string, rest: string)
    requires forall j :: 0 <= j < |l| ==> !IsLineBreak(l[j])
    ensures LineEnd(l + "\n" + rest) == |l|
  {
    var s := l + "\n" + rest;
    assert s[|l|] == '\n';
    assert forall j :: 0 <= j < |l| ==> s[j] == l[j];
  }

  /** A join's first part is where it starts. */
  lemma {:induction false} JoinHead(parts: seq<string>, sep: string)
    requires parts != []
    ensures |parts[0]| <= |Join(parts, sep)| && Join(parts, sep)[..|parts[0]|] == parts[0]
  {
  }

  /** The line break after a line, followed by a non-blank line, starts no separator. */
  lemma {:induction false} NoBreakAfterLine(x: string, rest: string, l1: string)
    requires x != [] && x[|x| - 1] == '\n' && TextLine(l1)
    requires |l1| <= |rest| && rest[..|l1|] == l1
    ensures BreakEnd(x + rest, |x| - 1).None?
  {
    var s := x + rest;
    assert NewlineEnd(s, |x| - 1) == Some(|x|);
    SkipSpaceShift(x, rest, 0);
    var m :| 0 <= m < |l1| && !IsSpace(l1[m]);
    assert rest[m] == l1[m];
    var w := SkipSpace(rest, 0);
    SkipSpaceRun(rest, 0);
    assert w <= m;
    forall k | |x| <= k < |x| + w
      ensures s[k] != '\n'
    {
      assert s[k] == rest[k - |x|] == l1[k - |x|];
      assert !IsLineBreak(l1[k - |x|]);
    }
    LastNewlineNone(s, |x|, |x| + w);
  }

  /** A line, a line break, and an unbroken text that starts with a non-blank line: no separator anywhere. */
  lemma {:induction false} UnbrokenCons(l: string, rest: string, l1: string)
    requires TextLine(l) && TextLine(l1) && Unbroken(rest)
    requires |l1| <= |rest| && rest[..|l1|] == l1
    ensures Unbroken(l + "\n" + rest)
  {
    var x := l + "\n";
    var s := x + rest;
    assert forall j :: 0 <= j < |l| ==> s[j] == l[j];
    forall p | 0 <= p <= |s|
      ensures BreakEnd(s, p).None?
    {
      if p < |l| {
        assert NewlineEnd(s, p).None?;
      } else if p == |l| {
        NoBreakAfterLine(x, rest, l1);
      } else {
        BreakShift(x, rest, p - |x|);
      }
    }
  }

  /** Lines joined with '\n' hold no separator. */
  lemma {:induction false} UnbrokenJoin(ls: seq<string>)
    requires ls != [] && forall k :: 0 <= k < |ls| ==> TextLine(ls[k])
    ensures Unbroken(Join(ls, "\n"))
    decreases |ls|
  {
    var l := ls[0];
    assert TextLine(l);
    if |ls| == 1 {
      forall p | 0 <= p <= |l|
        ensures BreakEnd(l, p).None?
      {
        assert NewlineEnd(l, p).None?;
      }
    } else {
      UnbrokenJoin(ls[1..]);
      JoinHead(ls[1..], "\n");
      assert TextLine(ls[1]);
      UnbrokenCons(l, Join(ls[1..], "\n"), ls[1]);
    }
  }

  /** A WebVTT timestamp not followed by a digit is where the clock-time pattern matches, and all of it. */
  lemma {:induction false} ClockEndStamp(s: string, i: nat)
    requires i + 12 <= |s| && Matches(s[i..i + 12], '.')
    requires i + 12 == |s| || !IsDigit(s[i + 12])
    ensures ClockEnd(s, i) == Some(i + 12)
  {
    var t := s[i..i + 12];
    assert forall k :: 0 <= k < 12 ==> s[i + k] == t[k];
    assert DigitRun(s, i, 2) == 2;
    assert DigitRun(s, i + 9, 3) == 3;
  }

  /** Between the timestamps of a timing line: one space, the arrow, one space. */
  lemma {:induction false} TimingGap(c: VttCue)
    requires |c.start| == 12 && Matches(c.end, '.')
    ensures SkipSpace(TimingLine(c), 12) == 13 && At(TimingLine(c), "-->", 13) && SkipSpace(TimingLine(c), 16) == 17
  {
    var line := TimingLine(c);
    assert line[12..17] == " --> " && line[17] == c.end[0];
  }

  /** The timing line of a cue with WebVTT timestamps yields those timestamps. */
  lemma {:induction false} SearchTimingLine(c: VttCue)
    requires Matches(c.start, '.') && Matches(c.end, '.')
    ensures SearchTiming(TimingLine(c), 0) == Some((c.start, c.end))
  {
    var line := TimingLine(c);
    TimingLineClocks(c);
    TimingGap(c);
    assert TimingAt(line, 0) == Some((line[0..12], line[17..29]));
  }

  /** Both timestamps of a timing line are where the clock-time pattern matches. */
  lemma {:induction false} TimingLineClocks(c: VttCue)
    requires Matches(c.start, '.') && Matches(c.end, '.')
    ensures |TimingLine(c)| == 29 && TimingLine(c)[0..12] == c.start && TimingLine(c)[17..29] == c.end
    ensures ClockEnd(TimingLine(c), 0) == Some(12) && ClockEnd(TimingLine(c), 17) == Some(29)
  {
    var line := TimingLine(c);
    assert line[0..12] == c.start && line[17..29] == c.end && |line| == 29;
    assert line[12] == ' ';
    ClockEndStamp(line, 0);
    ClockEndStamp(line, 17);
  }

  /** The lines build_vtt writes for a cue's text are non-blank. */
  lemma {:induction false} NonBlankLines(ls: seq<string>)
    requires forall k :: 0 <= k < |ls| ==> TextLine(ls[k])
    ensures NonBlank(ls) == ls
    decreases |ls|
  {
    if ls != [] {
      assert forall k :: 0 <= k < |ls| - 1 ==> ls[1..][k] == ls[k + 1];
      NonBlankLines(ls[1..]);
    }
  }

  /**
   * A cue build_vtt writes so that parse_srt reads it back: normal, and its text empty or
   * every line of it non-blank and free of line boundaries.
   */
  predicate Writable(c: VttCue) {
    Normal(c) && WritableText(c.text)
  }

  /** Empty, or lines that each have a visible character and no line boundary. */
  predicate WritableText(t: string) {
    t == "" || forall k :: 0 <= k < |Split(t, "\n")| ==> TextLine(Split(t, "\n")[k])
  }

  /** The timing line is a line of text with a digit first. */
  lemma {:induction false} TimingTextLine(c: VttCue)
    requires Matches(c.start, '.') && Matches(c.end, '.')
    ensures TextLine(TimingLine(c)) && IsDigit(TimingLine(c)[0])
  {
    var line := TimingLine(c);
    assert !IsSpace(line[0]);
    forall j | 0 <= j < |line|
      ensures !IsLineBreak(line[j])
    {
      if j < 12 {
        assert line[j] == c.start[j];
      } else if j >= 17 {
        assert line[j] == c.end[j - 17];
      }
    }
  }

  /** The timing line holds "-->". */
  lemma {:induction false} TimingArrow(c: VttCue)
    requires |c.start| == 12
    ensures Contains(TimingLine(c), "-->")
  {
    assert At(TimingLine(c), "-->", 13);
  }

  /** The lines of a cue's block. */
  lemma {:induction false} CueBlockLines(c: VttCue)
    requires Writable(c) && c.text != ""
    ensures NonBlank(SplitLines(CueBlock(c))) == [TimingLine(c)] + Split(c.text, "\n")
  {
    var ls := [TimingLine(c)] + Split(c.text, "\n");
    TimingTextLine(c);
    CueLines(c);
    SplitLinesJoin(ls);
    NonBlankLines(ls);
  }

  /** A WebVTT timestamp is normalised to itself. */
  lemma {:induction false} NormalizedStamp(t: string)
    requires Matches(t, '.')
    ensures IsClock(t) && Normalized(t) == t
  {
    assert ClockTime(t, 2);
    NormalizedTime(t);
    NormalizeVttStamp(t);
  }

  /** The cue of a cue block's lines is the cue. */
  lemma {:induction false} CueOfCueLines(c: VttCue)
    requires Writable(c) && c.text != ""
    ensures CueOfLines([TimingLine(c)] + Split(c.text, "\n")) == Some(c)
  {
    var ls := [TimingLine(c)] + Split(c.text, "\n");
    TimingArrow(c);
    assert ArrowLine(ls) == Some(0);
    SearchTimingLine(c);
    NormalizedStamp(c.start);
    NormalizedStamp(c.end);
    assert ls[1..] == Split(c.text, "\n");
    JoinSplit(c.text, "\n");
    StrippedIsFixed(c.text);
  }

  /** A cue with empty text: its block is its timing line and a line break, and that line alone reads back as the cue. */
  lemma {:induction false} EmptyCueBlock(c: VttCue)
    requires Matches(c.start, '.') && Matches(c.end, '.') && c.text == ""
    ensures CueBlock(c) == TimingLine(c) + "\n" && Solid(TimingLine(c))
    ensures ParseBlock(TimingLine(c)) == Some(c)
  {
    assert CueBlock(c) == TimingLine(c) + "\n" + "";
    TimingLineSolid(c);
    TimingLineAlone(c);
    assert c == VttCue(c.start, c.end, "");
  }

  /** A timing line is a solid block. */
  lemma {:induction false} TimingLineSolid(c: VttCue)
    requires Matches(c.start, '.') && Matches(c.end, '.')
    ensures Solid(TimingLine(c))
  {
    var t := TimingLine(c);
    TimingTextLine(c);
    UnbrokenJoin([t]);
    assert Join([t], "\n") == t;
  }

  /** A timing line alone is read as a cue with its timestamps and empty text. */
  lemma {:induction false} TimingLineAlone(c: VttCue)
    requires Matches(c.start, '.') && Matches(c.end, '.')
    ensures ParseBlock(TimingLine(c)) == Some(VttCue(c.start, c.end, ""))
  {
    var t := TimingLine(c);
    TimingTextLine(c);
    assert LineEnd(t) == |t|;
    assert SplitLines(t) == [t];
    NonBlankLines([t]);
    TimingArrow(c);
    assert ArrowLine([t]) == Some(0);
    SearchTimingLine(c);
    NormalizedStamp(c.start);
    NormalizedStamp(c.end);
    assert [t][1..] == [];
    assert CueOfLines([t]) == Some(VttCue(Normalized(c.start), Normalized(c.end), Strip(Join([], "\n"))));
  }

  /** parse_srt reads what is left of a cue's block after splitting back as the cue. */
  lemma {:induction false} ParseCueBlock(c: VttCue)
    requires Writable(c)
    ensures ParseBlock(Core(CueBlock(c))) == Some(c)
  {
    CueBlockLoose(c);
    if c.text == "" {
      EmptyCueBlock(c);
    } else {
      CueBlockLines(c);
      CueOfCueLines(c);
    }
  }

  /** A cue's block is loose: solid, or for an empty text its timing line and a line break. */
  lemma {:induction false} CueBlockLoose(c: VttCue)
    requires Writable(c)
    ensures Loose(CueBlock(c))
    ensures Core(CueBlock(c)) == if c.text == "" then TimingLine(c) else CueBlock(c)
  {
    if c.text == "" {
      EmptyCueBlock(c);
      assert CueBlock(c)[..|CueBlock(c)| - 1] == TimingLine(c);
    } else {
      TextCueBlockSolid(c);
    }
  }

  /** The block of a cue with text is solid. */
  lemma {:induction false} TextCueBlockSolid(c: VttCue)
    requires Writable(c) && c.text != ""
    ensures Solid(CueBlock(c))
  {
    var tl := Split(c.text, "\n");
    var ls := [TimingLine(c)] + tl;
    TimingTextLine(c);
    CueLines(c);
    UnbrokenJoin(ls);
    assert TextLine(tl[0]);
  }

  /** A single line without "-->" yields no cue. */
  lemma {:induction false} ParseArrowlessLine(l: string)
    requires l != [] && (forall j :: 0 <= j < |l| ==> !IsLineBreak(l[j])) && !Contains(l, "-->")
    ensures ParseBlock(l) == None
  {
    assert LineEnd(l) == |l|;
    assert SplitLines(l) == [l];
  }

  /** A line none of whose characters is '-' holds no "-->". */
  lemma {:induction false} NoDash(l: string)
    requires forall j :: 0 <= j < |l| ==> l[j] != '-'
    ensures !Contains(l, "-->")
  {
    forall j | 0 <= j <= |l|
      ensures !At(l, "-->", j)
    {
      if j + 3 <= |l| {
        assert l[j..j + 3][0] == l[j];
      }
    }
  }

  /** The signature line is a solid block that yields no cue. */
  lemma {:induction false} SignatureBlock()
    ensures Solid("WEBVTT") && ParseBlock("WEBVTT") == None
  {
    var l := "WEBVTT";
    assert !IsSpace(l[0]) && !IsSpace(l[|l| - 1]);
    assert forall j :: 0 <= j < |l| ==> !IsLineBreak(l[j]) && l[j] != '-';
    assert TextLine(l);
    UnbrokenJoin([l]);
    assert Join([l], "\n") == l;
    assert Unbroken(l);
    NoDash(l);
    ParseArrowlessLine(l);
  }

  /** A language build_vtt writes on its LANG line and parse_srt skips: stripped, on one line, without "-->". */
  predicate LangValue(lang: string) {
    IsStripped(lang) && (forall j :: 0 <= j < |lang| ==> !IsLineBreak(lang[j])) && !Contains(lang, "-->")
  }

  /** "LANG: " before a text holding no "-->" holds no "-->" either. */
  lemma {:induction false} LangArrow(lang: string)
    requires !Contains(lang, "-->")
    ensures !Contains("LANG: " + lang, "-->")
  {
    var l := "LANG: " + lang;
    assert l[6..] == lang;
    forall j | 0 <= j <= |l|
      ensures !At(l, "-->", j)
    {
      if j + 3 <= |l| {
        if j < 6 {
          assert l[j..j + 3][0] == l[j];
        } else {
          assert l[j..j + 3] == l[6..][j - 6..j - 3];
          assert !At(lang, "-->", j - 6);
        }
      }
    }
  }

  /** The LANG block of a language is a solid block that yields no cue. */
  lemma {:induction false} LangBlock(lang: string)
    requires LangValue(lang) && lang != []
    ensures Solid("LANG: " + lang) && ParseBlock("LANG: " + lang) == None
  {
    var l := "LANG: " + lang;
    forall j | 0 <= j < |l|
      ensures !IsLineBreak(l[j])
    {
      if j >= 6 {
        assert l[j] == lang[j - 6];
      }
    }
    assert !IsSpace(l[0]);
    assert TextLine(l);
    UnbrokenJoin([l]);
    LangArrow(lang);
    ParseArrowlessLine(l);
  }

  /** Present entries of a concatenation are those of each part. */
  lemma {:induction false} SomesAppend<T>(a: seq<Option<T>>, b: seq<Option<T>>)
    ensures Somes(a + b) == Somes(a) + Somes(b)
    decreases |a|
  {
    if a == [] {
      assert a + b == b;
    } else {
      assert (a + b)[1..] == a[1..] + b;
      SomesAppend(a[1..], b);
    }
  }

  /** Entries all present give their values. */
  lemma {:induction false} SomesPresent<T>(xs: seq<Option<T>>, vs: seq<T>)
    requires |xs| == |vs| && forall k :: 0 <= k < |xs| ==> xs[k] == Some(vs[k])
    ensures Somes(xs) == vs
    decreases |xs|
  {
    if xs != [] {
      SomesPresent(xs[1..], vs[1..]);
    }
  }

  /** Entries all absent give nothing. */
  lemma {:induction false} SomesAbsent<T>(xs: seq<Option<T>>)
    requires forall k :: 0 <= k < |xs| ==> xs[k].None?
    ensures Somes(xs) == []
    decreases |xs|
  {
    if xs != [] {
      SomesAbsent(xs[1..]);
    }
  }

  /** Parsing each block of a concatenation is parsing each block of each part. */
  lemma {:induction false} ParseEachAppend(a: seq<string>, b: seq<string>)
    ensures ParseEach(a + b) == ParseEach(a) + ParseEach(b)
  {
    assert forall k :: 0 <= k < |a| ==> (a + b)[k] == a[k];
    assert forall k :: |a| <= k < |a| + |b| ==> (a + b)[k] == b[k - |a|];
  }

  /** The header blocks are solid, so loose and their own cores, and yield no cue. */
  lemma {:induction false} HeaderBlocks(lang: Option<string>)
    requires lang.Some? ==> LangValue(lang.value)
    ensures forall k :: 0 <= k < |SignatureBlocks(lang)| ==> Loose(SignatureBlocks(lang)[k])
    ensures Somes(ParseEach(Cores(SignatureBlocks(lang)))) == []
  {
    var h := SignatureBlocks(lang);
    var ps := ParseEach(Cores(h));
    forall k | 0 <= k < |h|
      ensures Loose(h[k]) && ps[k] == None
    {
      if k == 0 {
        assert h[k] == "WEBVTT";
        SignatureBlock();
      } else {
        assert h[k] == "LANG: " + lang.value;
        LangBlock(lang.value);
      }
      SolidCore(h[k]);
    }
    SomesAbsent(ps);
  }

  /** A solid block is loose and is its own core. */
  lemma {:induction false} SolidCore(b: string)
    requires Solid(b)
    ensures Loose(b) && Core(b) == b
  {
    assert IsSpace('\n');
  }

  /** The cue blocks are loose and what is left of them after splitting yields their cues. */
  lemma {:induction false} CueBlocksParse(cues: seq<VttCue>)
    requires forall k :: 0 <= k < |cues| ==> Writable(cues[k])
    ensures forall k :: 0 <= k < |cues| ==> Loose(CueBlocks(cues)[k])
    ensures Somes(ParseEach(Cores(CueBlocks(cues)))) == cues
  {
    forall k | 0 <= k < |cues|
      ensures Loose(CueBlock(cues[k])) && ParseBlock(Core(CueBlock(cues[k]))) == Some(cues[k])
    {
      CueBlockLoose(cues[k]);
      ParseCueBlock(cues[k]);
    }
    SomesPresent(ParseEach(Cores(CueBlocks(cues))), cues);
  }

  /** Two lists of loose blocks, one after the other, are loose blocks, and their cores are the cores of each. */
  lemma {:induction false} LooseAppend(a: seq<string>, b: seq<string>)
    requires forall k :: 0 <= k < |a| ==> Loose(a[k])
    requires forall k :: 0 <= k < |b| ==> Loose(b[k])
    ensures forall k :: 0 <= k < |a + b| ==> Loose((a + b)[k])
    ensures Cores(a + b) == Cores(a) + Cores(b)
  {
    forall k | 0 <= k < |a + b|
      ensures Loose((a + b)[k]) && Cores(a + b)[k] == (Cores(a) + Cores(b))[k]
    {
      if k < |a| {
        assert (a + b)[k] == a[k];
      } else {
        assert (a + b)[k] == b[k - |a|];
      }
    }
  }

  /** The blocks of a file build_vtt writes are loose, and what is left of them after splitting, parsed one at a time, gives back its cues. */
  lemma {:induction false} ParseFileBlocks(cues: seq<VttCue>, lang: Option<string>)
    requires forall k :: 0 <= k < |cues| ==> Writable(cues[k])
    requires lang.Some? ==> LangValue(lang.value)
    ensures forall k :: 0 <= k < |WrittenBlocks(cues, lang)| ==> Loose(WrittenBlocks(cues, lang)[k])
    ensures Somes(ParseEach(Cores(WrittenBlocks(cues, lang)))) == cues
  {
    var h, c := SignatureBlocks(lang), CueBlocks(cues);
    HeaderBlocks(lang);
    CueBlocksParse(cues);
    LooseAppend(h, c);
    ParseEachAppend(Cores(h), Cores(c));
    SomesAppend(ParseEach(Cores(h)), ParseEach(Cores(c)));
  }

  /** strip() and re.split of a file build_vtt writes give back the cores of its blocks. */
  lemma {:induction false} SplitFile(cues: seq<VttCue>, lang: Option<string>)
    requires forall k :: 0 <= k < |WrittenBlocks(cues, lang)| ==> Loose(WrittenBlocks(cues, lang)[k])
    ensures SplitBlocks(Strip(BuildVtt(cues, lang))) == Cores(WrittenBlocks(cues, lang))
  {
    var bs := WrittenBlocks(cues, lang);
    BuildVttBlocks(cues, lang);
    assert bs[0] == "WEBVTT";
    StripLooseJoin(bs);
    SplitLooseBlocks(bs);
  }

  /**
   * parse_srt reads back the cues build_vtt writes: cues with WebVTT timestamps whose
   * texts are empty, or stripped and made of non-blank lines without other line boundaries, and a
   * language, if any, that is stripped, on one line and free of "-->".
   */
  lemma {:induction false} RoundTrip(cues: seq<VttCue>, lang: Option<string>)
    requires forall k :: 0 <= k < |cues| ==> Writable(cues[k])
    requires lang.Some? ==> LangValue(lang.value)
    ensures ParseSrt(BuildVtt(cues, lang)) == cues
  {
    ParseFileBlocks(cues, lang);
    SplitFile(cues, lang);
  }

  // ---------------------------------------------------------------------------
  // The cues parse_srt reads are cues build_vtt writes back

  /** lstrip() of a text whose first part holds a visible character strips that part only. */
  lemma {:induction false} LstripAppend(a: string, b: string)
    requires !AllSpace(a)
    ensures Lstrip(a + b) == Lstrip(a) + b
    decreases |a|
  {
    var j :| 0 <= j < |a| && !IsSpace(a[j]);
    if IsSpace(a[0]) {
      assert a[1..][j - 1] == a[j];
      assert (a + b)[1..] == a[1..] + b;
      LstripAppend(a[1..], b);
    }
  }

  /** rstrip() of a text whose last part holds a visible character strips that part only. */
  lemma {:induction false} RstripAppend(a: string, b: string)
    requires !AllSpace(b)
    ensures Rstrip(a + b) == a + Rstrip(b)
    decreases |b|
  {
    var j :| 0 <= j < |b| && !IsSpace(b[j]);
    var s := a + b;
    assert s[|s| - 1] == b[|b| - 1];
    if IsSpace(b[|b| - 1]) {
      assert b[..|b| - 1][j] == b[j];
      assert s[..|s| - 1] == a + b[..|b| - 1];
      RstripAppend(a, b[..|b| - 1]);
    }
  }

  /** A line with a visible character and no line boundary keeps both when stripped on either side. */
  lemma {:induction false} TrimmedTextLine(l: string)
    requires TextLine(l)
    ensures TextLine(Lstrip(l)) && TextLine(Rstrip(l))
  {
    LstripTextLine(l);
    RstripTextLine(l);
  }

  lemma {:induction false} LstripTextLine(l: string)
    requires TextLine(l)
    ensures TextLine(Lstrip(l))
  {
    var j :| 0 <= j < |l| && !IsSpace(l[j]);
    var r := Lstrip(l);
    LstripParts(l);
    var d := |l| - |r|;
    assert r == l[d..];
    assert j >= d;
    assert r[j - d] == l[j];
    forall i | 0 <= i < |r|
      ensures !IsLineBreak(r[i])
    {
      assert r[i] == l[i + d];
    }
  }

  lemma {:induction false} RstripTextLine(l: string)
    requires TextLine(l)
    ensures TextLine(Rstrip(l))
  {
    var j :| 0 <= j < |l| && !IsSpace(l[j]);
    var q := Rstrip(l);
    RstripParts(l);
    assert q == l[..|q|];
    assert j < |q|;
    assert q[j] == l[j];
    forall i | 0 <= i < |q|
      ensures !IsLineBreak(q[i])
    {
      assert q[i] == l[i];
    }
  }

  /** lstrip() of lines joined with '\n' strips the first line only, when it has a visible character. */
  lemma {:induction false} LstripJoin(ls: seq<string>)
    requires ls != [] && !AllSpace(ls[0])
    ensures Lstrip(Join(ls, "\n")) == Join([Lstrip(ls[0])] + ls[1..], "\n")
  {
    if |ls| > 1 {
      var rest := Join(ls[1..], "\n");
      JoinCons(ls[0], ls[1..], "\n");
      JoinCons(Lstrip(ls[0]), ls[1..], "\n");
      assert ls == [ls[0]] + ls[1..];
      LstripAppend(ls[0], "\n" + rest);
      assert ls[0] + "\n" + rest == ls[0] + ("\n" + rest);
      assert Lstrip(ls[0]) + "\n" + rest == Lstrip(ls[0]) + ("\n" + rest);
    }
  }

  /** rstrip() of lines joined with '\n' strips the last line only, when it has a visible character. */
  lemma {:induction false} RstripJoin(ls: seq<string>)
    requires ls != [] && !AllSpace(ls[|ls| - 1])
    ensures Rstrip(Join(ls, "\n")) == Join(ls[..|ls| - 1] + [Rstrip(ls[|ls| - 1])], "\n")
  {
    var n := |ls|;
    var init, last := ls[..n - 1], ls[n - 1];
    if n == 1 {
      assert init + [Rstrip(last)] == [Rstrip(last)];
    } else {
      assert ls == init + [last];
      JoinAppend(init, [last], "\n");
      JoinAppend(init, [Rstrip(last)], "\n");
      RstripAppend(Join(init, "\n") + "\n", last);
    }
  }

  /** Lines with visible characters and no line boundaries, the first lstripped: still such lines. */
  lemma {:induction false} LstripLines(ls: seq<string>)
    requires ls != [] && forall k :: 0 <= k < |ls| ==> TextLine(ls[k])
    ensures var f := [Lstrip(ls[0])] + ls[1..];
      Lstrip(Join(ls, "\n")) == Join(f, "\n") && forall k :: 0 <= k < |f| ==> TextLine(f[k])
  {
    TrimmedTextLine(ls[0]);
    LstripJoin(ls);
  }

  /** Lines with visible characters and no line boundaries, the last rstripped: still such lines. */
  lemma {:induction false} RstripLines(ls: seq<string>)
    requires ls != [] && forall k :: 0 <= k < |ls| ==> TextLine(ls[k])
    ensures var b := ls[..|ls| - 1] + [Rstrip(ls[|ls| - 1])];
      Rstrip(Join(ls, "\n")) == Join(b, "\n") && forall k :: 0 <= k < |b| ==> TextLine(b[k])
  {
    var n := |ls|;
    var b := ls[..n - 1] + [Rstrip(ls[n - 1])];
    TrimmedTextLine(ls[n - 1]);
    RstripJoin(ls);
    forall k | 0 <= k < n
      ensures TextLine(b[k])
    {
      if k < n - 1 {
        assert b[k] == ls[k];
      }
    }
  }

  /** Lines with visible characters and no line boundaries, joined with '\n', split back into themselves. */
  lemma {:induction false} SplitTextLines(ls: seq<string>)
    requires ls != [] && forall k :: 0 <= k < |ls| ==> TextLine(ls[k])
    ensures Split(Join(ls, "\n"), "\n") == ls
  {
    forall k | 0 <= k < |ls|
      ensures '\n' !in ls[k]
    {
      assert TextLine(ls[k]);
      assert forall j :: 0 <= j < |ls[k]| ==> ls[k][j] != '\n';
    }
    SplitJoin(ls, '\n');
  }

  /**
   * strip() of lines with visible characters and no line boundaries, joined with '\n', is
   * text build_vtt writes back: empty when there are no lines, and otherwise again such lines.
   */
  lemma {:induction false} StrippedLines(ls: seq<string>)
    requires forall k :: 0 <= k < |ls| ==> TextLine(ls[k])
    ensures WritableText(Strip(Join(ls, "\n")))
  {
    if ls != [] {
      var f := [Lstrip(ls[0])] + ls[1..];
      LstripLines(ls);
      var b := f[..|f| - 1] + [Rstrip(f[|f| - 1])];
      RstripLines(f);
      SplitTextLines(b);
    }
  }

  /** Lines that have no line boundary keep none once the blank ones are dropped, and have a visible character. */
  lemma {:induction false} NonBlankTextLines(ls: seq<string>)
    requires forall k :: 0 <= k < |ls| ==> forall j :: 0 <= j < |ls[k]| ==> !IsLineBreak(ls[k][j])
    ensures forall k :: 0 <= k < |NonBlank(ls)| ==> TextLine(NonBlank(ls)[k])
    decreases |ls|
  {
    if ls != [] {
      assert forall k :: 0 <= k < |ls| - 1 ==> ls[1..][k] == ls[k + 1];
      NonBlankTextLines(ls[1..]);
    }
  }

  /** A cue read from lines with visible characters and no line boundaries is one build_vtt writes back. */
  lemma {:induction false} CueLinesWritable(lines: seq<string>)
    requires forall k :: 0 <= k < |lines| ==> TextLine(lines[k])
    ensures CueOfLines(lines).Some? ==> Writable(CueOfLines(lines).value)
  {
    if CueOfLines(lines).Some? {
      var k := ArrowLine(lines).value;
      var rest := lines[k + 1..];
      assert CueOfLines(lines).value.text == Strip(Join(rest, "\n"));
      forall i | 0 <= i < |rest|
        ensures TextLine(rest[i])
      {
        assert rest[i] == lines[k + 1 + i];
      }
      StrippedLines(rest);
    }
  }

  /** Every cue parse_srt reads from a block is one build_vtt writes back. */
  lemma {:induction false} ParsedBlockWritable(b: string)
    ensures ParseBlock(b).Some? ==> Writable(ParseBlock(b).value)
  {
    NonBlankTextLines(SplitLines(b));
    CueLinesWritable(NonBlank(SplitLines(b)));
  }

  /** Every cue parse_srt reads is one build_vtt writes back. */
  lemma {:induction false} ParsedWritable(content: string)
    ensures forall k :: 0 <= k < |ParseSrt(content)| ==> Writable(ParseSrt(content)[k])
  {
    var blocks := SplitBlocks(Strip(content));
    var xs := ParseEach(blocks);
    var r := ParseSrt(content);
    assert r == Somes(xs);
    forall k | 0 <= k < |r|
      ensures Writable(r[k])
    {
      assert Some(r[k]) in xs;
      var j :| 0 <= j < |xs| && xs[j] == Some(r[k]);
      ParsedBlockWritable(blocks[j]);
    }
  }

  /**
   * Converting SubRip text, writing the WebVTT file and converting that file again gives
   * the same cues: build_vtt writes back every cue parse_srt reads.
   */
  lemma {:induction false} ReconvertStable(content: string, lang: Option<string>)
    requires lang.Some? ==> LangValue(lang.value)
    ensures ParseSrt(BuildVtt(ParseSrt(content), lang)) == ParseSrt(content)
  {
    ParsedWritable(content);
    RoundTrip(ParseSrt(content), lang);
  }
}
