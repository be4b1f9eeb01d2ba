/**
 * fix_timing_and_merge: three passes over the list of cues.  Pass 1 repairs cues that end no
 * later than they start; pass 2 scans forward, pushing overlapping starts and merging short
 * cues into their neighbours while it builds the output list; pass 3 sweeps the output list
 * once more for overlaps.
 *
 * The Subtitle objects are the elements of an array and the output list holds indices into
 * it: a cue in the output and the same cue in the input list are one element, as they are one
 * object in the scripts, so a merge into the last output cue is an update of the array.  Times
 * are integer milliseconds and `minMs` is min_duration in milliseconds.  Each pass is a method
 * proved equal to a function on the sequence of cues; the properties are lemmas about those
 * functions.
 */
module Timing {
  import opened Text
  import opened Subtitles

  /** int(min_duration * 1000 / 2): half the minimum in milliseconds, truncated toward zero. */
  function HalfMin(minMs: int): (h: int)
    ensures minMs >= 0 ==> 0 <= h && 2 * h <= minMs <= 2 * h + 1
    ensures minMs < 0 ==> h <= 0 && 2 * h - 1 <= minMs <= 2 * h
  {
    if minMs >= 0 then minMs / 2 else -((-minMs) / 2)
  }

  /** The set '.?!。！？' of sentence-final marks. */
  predicate IsSentenceEnd(c: char) {
    c == '.' || c == '?' || c == '!' || c == '\U{3002}' || c == '\U{FF01}' || c == '\U{FF1F}'
  }

  /** The stripped text ends in a sentence-final mark; an empty text does not. */
  predicate EndsSentence(content: string) {
    var t := Strip(content);
    t != [] && IsSentenceEnd(t[|t| - 1])
  }

  /** The words of all the cues' texts, in order. */
  function Transcript(cs: seq<Cue>): seq<string> {
    if cs == [] then [] else Words(cs[0].content) + Transcript(cs[1..])
  }

  lemma {:induction false} TranscriptAppend(a: seq<Cue>, b: seq<Cue>)
    ensures Transcript(a + b) == Transcript(a) + Transcript(b)
    decreases |a|
  {
    if a == [] {
      assert a + b == b;
    } else {
      assert (a + b)[1..] == a[1..] + b;
      TranscriptAppend(a[1..], b);
    }
  }

  /** Joining two texts the way the merges do: rstrip, one space, lstrip.  No word and no visible character is lost. */
  function JoinText(a: string, b: string): (r: string)
    ensures Words(r) == Words(a) + Words(b)
    ensures Visible(r) == Visible(a) + Visible(b)
  {
    JoinedWords(a, b);
    RstripVisible(a);
    LstripVisible(b);
    VisibleAppend(Rstrip(a), [' '] + Lstrip(b));
    VisibleCons(' ', Lstrip(b));
    assert IsSpace(' ') && Rstrip(a) + " " + Lstrip(b) == Rstrip(a) + ([' '] + Lstrip(b));
    Rstrip(a) + " " + Lstrip(b)
  }

  /** The start moved to `at`; the end put min_duration after it when it no longer follows the start. */
  function PushStart(c: Cue, at: int, minMs: int): (r: Cue)
    ensures r.index == c.index && r.start == at && r.content == c.content
    ensures c.end > at ==> r.end == c.end
    ensures c.end <= at ==> r.end == at + minMs
    ensures minMs > 0 ==> r.start < r.end
  {
    if c.end <= at then c.(start := at, end := at + minMs) else c.(start := at)
  }

  /** `s.duration < min_duration`, both in milliseconds. */
  predicate IsShort(c: Cue, minMs: int) {
    Duration(c) < minMs
  }

  // ---------------------------------------------------------------------------
  // Pass 1

  predicate Invalid(c: Cue) {
    c.end <= c.start
  }

  /** A cue that ends no later than it starts gets its end put min_duration after its start. */
  function Repair(c: Cue, minMs: int): (r: Cue)
    ensures r.index == c.index && r.start == c.start && r.content == c.content
    ensures minMs > 0 ==> r.start < r.end
    ensures !Invalid(c) ==> r == c
  {
    if Invalid(c) then c.(end := c.start + minMs) else c
  }

  /** The number of cues pass 1 repairs. */
  function CountInvalid(cs: seq<Cue>): (n: nat)
    ensures n <= |cs|
  {
    if cs == [] then 0 else CountInvalid(cs[..|cs| - 1]) + (if Invalid(cs[|cs| - 1]) then 1 else 0)
  }

  /** Pass 1 counts nothing exactly when every cue already ends after it starts. */
  lemma {:induction false} CountInvalidZero(cs: seq<Cue>)
    ensures CountInvalid(cs) == 0 <==> forall k :: 0 <= k < |cs| ==> !Invalid(cs[k])
    decreases |cs|
  {
    if cs != [] {
      var init := cs[..|cs| - 1];
      CountInvalidZero(init);
      assert forall k :: 0 <= k < |init| ==> init[k] == cs[k];
    }
  }

  /** Pass 1: every cue repaired in place; the count is the number of cues that needed it. */
  method RepairDurations(subs: array<Cue>, minMs: int) returns (adjusted: nat)
    modifies subs
    ensures forall k :: 0 <= k < subs.Length ==> subs[k] == Repair(old(subs[k]), minMs)
    ensures minMs > 0 ==> forall k :: 0 <= k < subs.Length ==> subs[k].start < subs[k].end
    ensures adjusted == CountInvalid(old(subs[..]))
  {
    adjusted := 0;
    for k := 0 to subs.Length
      invariant forall j :: 0 <= j < k ==> subs[j] == Repair(old(subs[j]), minMs)
      invariant forall j :: k <= j < subs.Length ==> subs[j] == old(subs[j])
      invariant adjusted == CountInvalid(old(subs[..])[..k])
    {
      assert old(subs[..])[..k + 1][..k] == old(subs[..])[..k];
      if subs[k].end <= subs[k].start {
        subs[k] := subs[k].(end := subs[k].start + minMs);
        adjusted := adjusted + 1;
      }
    }
    assert old(subs[..])[..subs.Length] == old(subs[..]);
  }

  // ---------------------------------------------------------------------------
  // Pass 2

  /** The scan's state: the cues (updated in place), the output list as indices, and the two counters. */
  datatype ScanState = ScanState(cues: seq<Cue>, out: seq<nat>, shifted: nat, merged: nat)

  predicate Below(out: seq<nat>, n: nat) {
    forall j :: 0 <= j < |out| ==> out[j] < n
  }

  predicate Increasing(out: seq<nat>) {
    forall j, k :: 0 <= j < k < |out| ==> out[j] < out[k]
  }

  /** The cues the indices point at, in order. */
  function Pick(cues: seq<Cue>, out: seq<nat>): (r: seq<Cue>)
    requires Below(out, |cues|)
    ensures |r| == |out| && forall j :: 0 <= j < |out| ==> r[j] == cues[out[j]]
  {
    seq(|out|, j requires 0 <= j < |out| => cues[out[j]])
  }

  /** Each cue of the list starts no earlier than the one before it ends. */
  predicate NonOverlapping(cues: seq<Cue>, out: seq<nat>)
    requires Below(out, |cues|)
  {
    forall j :: 0 < j < |out| ==> cues[out[j - 1]].end <= cues[out[j]].start
  }

  function Last(out: seq<nat>): nat
    requires out != []
  {
    out[|out| - 1]
  }

  /** The overlap check of one iteration: a cue that starts before the last output cue ends is pushed to that end. */
  function Pushed(st: ScanState, i: nat, minMs: int): (r: ScanState)
    requires i < |st.cues| && Below(st.out, i)
    ensures |r.cues| == |st.cues| && r.out == st.out && r.merged == st.merged
    ensures r.cues[i].content == st.cues[i].content
    ensures st.out != [] ==> r.cues[Last(st.out)].end <= r.cues[i].start
  {
    if st.out != [] && st.cues[i].start < st.cues[Last(st.out)].end then
      ScanState(st.cues[i := PushStart(st.cues[i], st.cues[Last(st.out)].end, minMs)], st.out, st.shifted + 1, st.merged)
    else st
  }

  /**
   * The rest of the iteration, for the (pushed) cue at index i: a short cue is merged into the
   * last output cue when that one does not end a sentence, or else into the next cue when that
   * one starts within half the minimum after it ends; a cue that is not merged is appended.
   */
  function Place(st: ScanState, i: nat, minMs: int): (r: ScanState)
    requires i < |st.cues| && Below(st.out, i)
    ensures |r.cues| == |st.cues| && Below(r.out, i + 1) && r.shifted == st.shifted
    ensures r.out == st.out + [i] || (r.out == st.out && r.merged == st.merged + 1)
    ensures r.out == st.out + [i] ==> r.merged == st.merged && r.cues == st.cues
  {
    var s := st.cues[i];
    if IsShort(s, minMs) && st.out != [] && !EndsSentence(st.cues[Last(st.out)].content) then
      var prev := st.cues[Last(st.out)];
      var merged := prev.(content := JoinText(prev.content, s.content), end := Max(prev.end, s.end));
      ScanState(st.cues[Last(st.out) := merged], st.out, st.shifted, st.merged + 1)
    else if IsShort(s, minMs) && i + 1 < |st.cues| && st.cues[i + 1].start <= s.end + HalfMin(minMs) then
      var next := st.cues[i + 1];
      var merged := next.(start := s.start, content := JoinText(s.content, next.content));
      ScanState(st.cues[i + 1 := merged], st.out, st.shifted, st.merged + 1)
    else
      ScanState(st.cues, st.out + [i], st.shifted, st.merged)
  }

  /**
   * The three outcomes of Place.  The cue is merged, and not appended, exactly when it is short
   * and either the last output cue does not end a sentence or the next cue starts within half
   * the minimum after it ends.  A backward merge keeps the last output cue's index and start,
   * ends it at the later of the two ends and appends the cue's text after one space; a forward
   * merge moves the next cue's start back to the cue's start and puts the cue's text before its
   * own.  Either way the merged text holds the words of both texts, in order.
   */
  lemma {:induction false} PlaceCases(st: ScanState, i: nat, minMs: int)
    requires i < |st.cues| && Below(st.out, i)
    ensures var r, s := Place(st, i, minMs), st.cues[i];
      var backward := IsShort(s, minMs) && st.out != [] && !EndsSentence(st.cues[Last(st.out)].content);
      var forward := IsShort(s, minMs) && i + 1 < |st.cues| && st.cues[i + 1].start <= s.end + HalfMin(minMs);
      (r.out == st.out <==> backward || forward)
      && (backward ==>
        var prev := st.cues[Last(st.out)];
        var m := r.cues[Last(st.out)];
        r.cues == st.cues[Last(st.out) := m]
        && m.index == prev.index && m.start == prev.start && m.end == Max(prev.end, s.end)
        && m.content == JoinText(prev.content, s.content)
        && Words(m.content) == Words(prev.content) + Words(s.content))
      && (!backward && forward ==>
        var next := st.cues[i + 1];
        var m := r.cues[i + 1];
        r.cues == st.cues[i + 1 := m]
        && m.index == next.index && m.start == s.start && m.end == next.end
        && m.content == JoinText(s.content, next.content)
        && Words(m.content) == Words(s.content) + Words(next.content))
  {
    var s := st.cues[i];
    if st.out != [] {
      JoinedWords(st.cues[Last(st.out)].content, s.content);
    }
    if i + 1 < |st.cues| {
      JoinedWords(s.content, st.cues[i + 1].content);
    }
  }

  /** One iteration of the scan, for the cue at index i. */
  function Step(st: ScanState, i: nat, minMs: int): (r: ScanState)
    requires i < |st.cues| && Below(st.out, i)
    ensures |r.cues| == |st.cues| && Below(r.out, i + 1)
  {
    Place(Pushed(st, i, minMs), i, minMs)
  }

  /** The scan from index i to the end. */
  function ScanFrom(st: ScanState, i: nat, minMs: int): (r: ScanState)
    requires i <= |st.cues| && Below(st.out, i)
    ensures |r.cues| == |st.cues| && Below(r.out, |st.cues|)
    decreases |st.cues| - i
  {
    if i == |st.cues| then st else ScanFrom(Step(st, i, minMs), i + 1, minMs)
  }

  /** Pass 2 on a list of cues. */
  function Scan(cues: seq<Cue>, minMs: int): (r: ScanState)
    ensures |r.cues| == |cues| && Below(r.out, |cues|)
  {
    ScanFrom(ScanState(cues, [], 0, 0), 0, minMs)
  }

  /** What the scan keeps true after i iterations, for an input of n cues whose transcript is `words`. */
  ghost predicate ScanInv(st: ScanState, i: nat, n: nat, words: seq<string>) {
    |st.cues| == n && i <= n && Below(st.out, i) && Increasing(st.out)
    && |st.out| + st.merged == i && st.shifted <= i
    && NonOverlapping(st.cues, st.out)
    && Transcript(Pick(st.cues, st.out)) + Transcript(st.cues[i..]) == words
  }

  lemma {:induction false} TranscriptCons(cs: seq<Cue>, i: nat)
    requires i < |cs|
    ensures Transcript(cs[i..]) == Words(cs[i].content) + Transcript(cs[i + 1..])
  {
    assert cs[i..][1..] == cs[i + 1..];
  }

  /** Pushing the start of cue i, which is not yet in the output, changes neither the output nor the transcript. */
  lemma {:induction false} PushKeeps(st: ScanState, i: nat, n: nat, words: seq<string>, s: Cue)
    requires ScanInv(st, i, n, words) && i < n && s.content == st.cues[i].content
    ensures var c1 := st.cues[i := s];
      Pick(c1, st.out) == Pick(st.cues, st.out) && NonOverlapping(c1, st.out)
      && Transcript(Pick(c1, st.out)) + Transcript(c1[i..]) == words
  {
    var c1 := st.cues[i := s];
    assert Pick(c1, st.out) == Pick(st.cues, st.out);
    TranscriptCons(c1, i);
    TranscriptCons(st.cues, i);
    assert c1[i + 1..] == st.cues[i + 1..];
  }

  /** The picked cues are those before the last index followed by the cue at the last index, replaced or not. */
  lemma {:induction false} PickLast(c1: seq<Cue>, out: seq<nat>, m: Cue)
    requires out != [] && Below(out, |c1|) && Increasing(out)
    ensures Pick(c1[Last(out) := m], out) == Pick(c1, out[..|out| - 1]) + [m]
    ensures Pick(c1, out) == Pick(c1, out[..|out| - 1]) + [c1[Last(out)]]
  {
    var p := Pick(c1, out[..|out| - 1]);
    forall j | 0 <= j < |out| - 1
      ensures c1[Last(out) := m][out[j]] == p[j]
    {
      assert out[j] < Last(out);
    }
  }

  /** A backward merge appends the short cue's words to the last output cue. */
  lemma {:induction false} BackwardKeeps(c1: seq<Cue>, out: seq<nat>, i: nat, words: seq<string>, merged: Cue)
    requires i < |c1| && out != [] && Below(out, i) && Increasing(out)
    requires NonOverlapping(c1, out)
    requires Transcript(Pick(c1, out)) + Transcript(c1[i..]) == words
    requires merged.start == c1[Last(out)].start
    requires Words(merged.content) == Words(c1[Last(out)].content) + Words(c1[i].content)
    ensures var c2 := c1[Last(out) := merged];
      NonOverlapping(c2, out) && Transcript(Pick(c2, out)) + Transcript(c2[i + 1..]) == words
  {
    BackwardWords(c1, out, i, words, merged);
    var c2 := c1[Last(out) := merged];
    forall j | 0 < j < |out|
      ensures c2[out[j - 1]].end <= c2[out[j]].start
    {
      assert out[j - 1] != Last(out);
    }
  }

  /** The words half of BackwardKeeps. */
  lemma {:induction false} BackwardWords(c1: seq<Cue>, out: seq<nat>, i: nat, words: seq<string>, merged: Cue)
    requires i < |c1| && out != [] && Below(out, i) && Increasing(out)
    requires Transcript(Pick(c1, out)) + Transcript(c1[i..]) == words
    requires Words(merged.content) == Words(c1[Last(out)].content) + Words(c1[i].content)
    ensures var c2 := c1[Last(out) := merged];
      Transcript(Pick(c2, out)) + Transcript(c2[i + 1..]) == words
  {
    var c2 := c1[Last(out) := merged];
    var p := Pick(c1, out[..|out| - 1]);
    PickLast(c1, out, merged);
    TranscriptSnoc(p, merged);
    TranscriptSnoc(p, c1[Last(out)]);
    TranscriptCons(c1, i);
    assert c2[i + 1..] == c1[i + 1..];
  }

  /** A forward merge hands the short cue's words to the next cue, which is still to be scanned. */
  lemma {:induction false} ForwardKeeps(c1: seq<Cue>, out: seq<nat>, i: nat, words: seq<string>, merged: Cue)
    requires i + 1 < |c1| && Below(out, i)
    requires NonOverlapping(c1, out)
    requires Transcript(Pick(c1, out)) + Transcript(c1[i..]) == words
    requires Words(merged.content) == Words(c1[i].content) + Words(c1[i + 1].content)
    ensures var c2 := c1[i + 1 := merged];
      NonOverlapping(c2, out) && Transcript(Pick(c2, out)) + Transcript(c2[i + 1..]) == words
  {
    var c2 := c1[i + 1 := merged];
    assert Pick(c2, out) == Pick(c1, out);
    TranscriptCons(c1, i);
    TranscriptCons(c1, i + 1);
    TranscriptCons(c2, i + 1);
    assert c2[i + 2..] == c1[i + 2..];
  }

  /** Appending cue i keeps the output ordered when it starts no earlier than the last output cue ends. */
  lemma {:induction false} AppendOrdered(c1: seq<Cue>, out: seq<nat>, i: nat)
    requires i < |c1| && Below(out, i) && Increasing(out)
    requires NonOverlapping(c1, out)
    requires out != [] ==> c1[Last(out)].end <= c1[i].start
    ensures Increasing(out + [i]) && NonOverlapping(c1, out + [i])
  {
    var o := out + [i];
    forall j, k | 0 <= j < k < |o|
      ensures o[j] < o[k]
    {
      if k < |out| {
        assert o[j] == out[j] && o[k] == out[k];
      }
    }
    forall j | 0 < j < |o|
      ensures c1[o[j - 1]].end <= c1[o[j]].start
    {
      if j < |out| {
        assert o[j - 1] == out[j - 1] && o[j] == out[j];
      }
    }
  }

  lemma {:induction false} TranscriptSnoc(cs: seq<Cue>, c: Cue)
    ensures Transcript(cs + [c]) == Transcript(cs) + Words(c.content)
  {
    TranscriptAppend(cs, [c]);
    assert Transcript([c]) == Words(c.content) + Transcript([]);
  }

  /** Appending cue i moves its words from the part still to scan to the output. */
  lemma {:induction false} AppendTranscript(c1: seq<Cue>, out: seq<nat>, i: nat, words: seq<string>)
    requires i < |c1| && Below(out, i)
    requires Transcript(Pick(c1, out)) + Transcript(c1[i..]) == words
    ensures Transcript(Pick(c1, out + [i])) + Transcript(c1[i + 1..]) == words
  {
    var p := Pick(c1, out);
    assert Pick(c1, out + [i]) == p + [c1[i]];
    TranscriptSnoc(p, c1[i]);
    TranscriptCons(c1, i);
  }

  /** One iteration keeps the scan invariant. */
  lemma {:induction false} StepKeeps(st: ScanState, i: nat, n: nat, words: seq<string>, minMs: int)
    requires ScanInv(st, i, n, words) && i < n
    ensures ScanInv(Step(st, i, minMs), i + 1, n, words)
  {
    var p := Pushed(st, i, minMs);
    var c1 := p.cues;
    PushKeeps(st, i, n, words, c1[i]);
    assert c1 == st.cues[i := c1[i]];
    var s := c1[i];
    if IsShort(s, minMs) && st.out != [] && !EndsSentence(c1[Last(st.out)].content) {
      var prev := c1[Last(st.out)];
      var merged := prev.(content := JoinText(prev.content, s.content), end := Max(prev.end, s.end));
      JoinedWords(prev.content, s.content);
      BackwardKeeps(c1, st.out, i, words, merged);
    } else if IsShort(s, minMs) && i + 1 < |c1| && c1[i + 1].start <= s.end + HalfMin(minMs) {
      var next := c1[i + 1];
      var merged := next.(start := s.start, content := JoinText(s.content, next.content));
      JoinedWords(s.content, next.content);
      ForwardKeeps(c1, st.out, i, words, merged);
    } else {
      AppendOrdered(c1, st.out, i);
      AppendTranscript(c1, st.out, i, words);
    }
  }

  /** Induction over the scan: a property that each iteration keeps holds at the end. */
  lemma {:induction false} ScanInduction(inv: (ScanState, nat) -> bool, st: ScanState, i: nat, minMs: int)
    requires i <= |st.cues| && Below(st.out, i) && inv(st, i)
    requires forall s: ScanState, k: nat | k < |s.cues| && Below(s.out, k) && inv(s, k) :: inv(Step(s, k, minMs), k + 1)
    ensures inv(ScanFrom(st, i, minMs), |st.cues|)
    decreases |st.cues| - i
  {
    if i < |st.cues| {
      ScanInduction(inv, Step(st, i, minMs), i + 1, minMs);
    }
  }

  lemma {:induction false} ScanFromKeeps(st: ScanState, i: nat, n: nat, words: seq<string>, minMs: int)
    requires ScanInv(st, i, n, words)
    ensures ScanInv(ScanFrom(st, i, minMs), n, n, words)
  {
    var inv := (s: ScanState, k: nat) => ScanInv(s, k, n, words);
    forall s: ScanState, k: nat | k < |s.cues| && Below(s.out, k) && inv(s, k)
      ensures inv(Step(s, k, minMs), k + 1)
    {
      StepKeeps(s, k, n, words, minMs);
    }
    ScanInduction(inv, st, i, minMs);
  }

  /**
   * After pass 2 every input cue is either in the output, once and in input order, or counted
   * as merged; adjacent output cues do not overlap; and the output's words are the input's
   * words in the same order.
   */
  lemma {:induction false} ScanProperties(cues: seq<Cue>, minMs: int)
    ensures var r := Scan(cues, minMs);
      Increasing(r.out) && |r.out| + r.merged == |cues| && r.shifted <= |cues|
      && NonOverlapping(r.cues, r.out)
      && Transcript(Pick(r.cues, r.out)) == Transcript(cues)
  {
    var st := ScanState(cues, [], 0, 0);
    assert Pick(cues, []) == [];
    assert cues[0..] == cues;
    ScanFromKeeps(st, 0, |cues|, Transcript(cues), minMs);
    var r := Scan(cues, minMs);
    assert r.cues[|cues|..] == [];
  }

  /** The overlap check of one iteration, in place. */
  method PushInPlace(subs: array<Cue>, i: nat, out: seq<nat>, shifted: nat, merged: nat, minMs: int)
    returns (shifted': nat)
    requires i < subs.Length && Below(out, i)
    modifies subs
    ensures ScanState(subs[..], out, shifted', merged) == Pushed(ScanState(old(subs[..]), out, shifted, merged), i, minMs)
  {
    shifted' := shifted;
    if out != [] && subs[i].start < subs[out[|out| - 1]].end {
      subs[i] := PushStart(subs[i], subs[out[|out| - 1]].end, minMs);
      shifted' := shifted + 1;
    }
  }

  /** The merge-or-append step of one iteration, in place. */
  method PlaceInPlace(subs: array<Cue>, i: nat, out: seq<nat>, shifted: nat, merged: nat, minMs: int)
    returns (out': seq<nat>, merged': nat)
    requires i < subs.Length && Below(out, i)
    modifies subs
    ensures ScanState(subs[..], out', shifted, merged') == Place(ScanState(old(subs[..]), out, shifted, merged), i, minMs)
  {
    ghost var st := ScanState(subs[..], out, shifted, merged);
    out', merged' := out, merged;
    var s := subs[i];
    assert s == st.cues[i];
    if IsShort(s, minMs) && out != [] && !EndsSentence(subs[out[|out| - 1]].content) {
      var last := out[|out| - 1];
      assert last == Last(st.out) && subs[last] == st.cues[last];
      var prev := subs[last];
      subs[last] := prev.(content := JoinText(prev.content, s.content), end := Max(prev.end, s.end));
      merged' := merged + 1;
      assert subs[..] == st.cues[last := subs[last]];
    } else if IsShort(s, minMs) && i + 1 < subs.Length && subs[i + 1].start <= s.end + HalfMin(minMs) {
      assert subs[i + 1] == st.cues[i + 1];
      var next := subs[i + 1];
      subs[i + 1] := next.(start := s.start, content := JoinText(s.content, next.content));
      merged' := merged + 1;
      assert subs[..] == st.cues[i + 1 := subs[i + 1]];
    } else {
      out' := out + [i];
    }
  }

  /** One iteration of the scan's loop, in place: cue i, and the last output cue or the next cue it merges into. */
  method ScanOne(subs: array<Cue>, i: nat, out: seq<nat>, shifted: nat, merged: nat, minMs: int)
    returns (out': seq<nat>, shifted': nat, merged': nat)
    requires i < subs.Length && Below(out, i)
    modifies subs
    ensures ScanState(subs[..], out', shifted', merged') == Step(ScanState(old(subs[..]), out, shifted, merged), i, minMs)
  {
    shifted' := PushInPlace(subs, i, out, shifted, merged, minMs);
    out', merged' := PlaceInPlace(subs, i, out, shifted', merged, minMs);
  }

  /** Pass 2: the scan in place, with the output list built as indices into the array. */
  method ScanAndMerge(subs: array<Cue>, minMs: int) returns (out: seq<nat>, shifted: nat, merged: nat)
    modifies subs
    ensures ScanState(subs[..], out, shifted, merged) == Scan(old(subs[..]), minMs)
  {
    out, shifted, merged := [], 0, 0;
    var i: nat := 0;
    while i < subs.Length
      invariant i <= subs.Length && Below(out, i)
      invariant ScanFrom(ScanState(subs[..], out, shifted, merged), i, minMs) == Scan(old(subs[..]), minMs)
    {
      ghost var before := ScanState(subs[..], out, shifted, merged);
      out, shifted, merged := ScanOne(subs, i, out, shifted, merged, minMs);
      assert ScanFrom(before, i, minMs) == ScanFrom(ScanState(subs[..], out, shifted, merged), i + 1, minMs);
      i := i + 1;
    }
  }

  // ---------------------------------------------------------------------------
  // Pass 3

  /** The sweep from position j of the output list: (cues, number of starts pushed). */
  function SweepFrom(cues: seq<Cue>, out: seq<nat>, j: nat, minMs: int): (r: (seq<Cue>, nat))
    requires 1 <= j && Below(out, |cues|)
    ensures |r.0| == |cues|
    decreases |out| - j
  {
    if j >= |out| then (cues, 0)
    else
      var prev := cues[out[j - 1]];
      var cur := cues[out[j]];
      if cur.start < prev.end then
        var rest := SweepFrom(cues[out[j] := PushStart(cur, prev.end, minMs)], out, j + 1, minMs);
        (rest.0, rest.1 + 1)
      else SweepFrom(cues, out, j + 1, minMs)
  }

  /** Pass 3 on the output list `out` of `cues`. */
  function Sweep(cues: seq<Cue>, out: seq<nat>, minMs: int): (r: (seq<Cue>, nat))
    requires Below(out, |cues|)
    ensures |r.0| == |cues|
  {
    SweepFrom(cues, out, 1, minMs)
  }

  /** The pairs before position j of the list do not overlap. */
  predicate NonOverlappingBefore(cues: seq<Cue>, out: seq<nat>, j: nat)
    requires Below(out, |cues|)
  {
    forall k :: 0 < k < j && k < |out| ==> cues[out[k - 1]].end <= cues[out[k]].start
  }

  lemma {:induction false} SweepFromSorts(cues: seq<Cue>, out: seq<nat>, j: nat, minMs: int)
    requires 1 <= j && Below(out, |cues|) && Increasing(out)
    requires NonOverlappingBefore(cues, out, j)
    ensures var r := SweepFrom(cues, out, j, minMs);
      NonOverlapping(r.0, out) && r.1 <= (if j < |out| then |out| - j else 0)
    decreases |out| - j
  {
    if j < |out| {
      var prev := cues[out[j - 1]];
      var cur := cues[out[j]];
      if cur.start < prev.end {
        var c2 := cues[out[j] := PushStart(cur, prev.end, minMs)];
        forall k | 0 < k < j + 1 && k < |out|
          ensures c2[out[k - 1]].end <= c2[out[k]].start
        {
          if k < j {
            assert out[k - 1] < out[k] < out[j];
          } else {
            assert out[k - 1] < out[j];
          }
        }
        SweepFromSorts(c2, out, j + 1, minMs);
      } else {
        SweepFromSorts(cues, out, j + 1, minMs);
      }
    }
  }

  /** The sweep moves times only: every cue keeps its text and its number. */
  lemma {:induction false} SweepFromText(cues: seq<Cue>, out: seq<nat>, j: nat, minMs: int)
    requires 1 <= j && Below(out, |cues|)
    ensures var r := SweepFrom(cues, out, j, minMs);
      forall k :: 0 <= k < |cues| ==> r.0[k].content == cues[k].content && r.0[k].index == cues[k].index
    decreases |out| - j
  {
    if j < |out| {
      var prev := cues[out[j - 1]];
      var cur := cues[out[j]];
      if cur.start < prev.end {
        SweepFromText(cues[out[j] := PushStart(cur, prev.end, minMs)], out, j + 1, minMs);
      } else {
        SweepFromText(cues, out, j + 1, minMs);
      }
    }
  }

  /** A list that already does not overlap is left as it is, with nothing counted. */
  lemma {:induction false} SweepFromNoop(cues: seq<Cue>, out: seq<nat>, j: nat, minMs: int)
    requires 1 <= j && Below(out, |cues|) && NonOverlapping(cues, out)
    ensures SweepFrom(cues, out, j, minMs) == (cues, 0)
    decreases |out| - j
  {
    if j < |out| {
      SweepFromNoop(cues, out, j + 1, minMs);
    }
  }

  /** Pass 3: each output cue that starts before the previous one ends is pushed, in list order. */
  method SweepOverlaps(subs: array<Cue>, out: seq<nat>, minMs: int) returns (adjusted: nat)
    requires Below(out, subs.Length)
    modifies subs
    ensures (subs[..], adjusted) == Sweep(old(subs[..]), out, minMs)
  {
    adjusted := 0;
    var j := 1;
    while j < |out|
      invariant 1 <= j
      invariant SweepFrom(subs[..], out, j, minMs).0 == Sweep(old(subs[..]), out, minMs).0
      invariant SweepFrom(subs[..], out, j, minMs).1 + adjusted == Sweep(old(subs[..]), out, minMs).1
      decreases |out| - j
    {
      var prev := subs[out[j - 1]];
      var cur := subs[out[j]];
      if cur.start < prev.end {
        subs[out[j]] := PushStart(cur, prev.end, minMs);
        adjusted := adjusted + 1;
      }
      j := j + 1;
    }
  }

  // ---------------------------------------------------------------------------
  // The three passes together

  /** The counters the scripts return: adjusted, merged and renumbered. */
  datatype Stats = Stats(adjusted: nat, merged: nat, renumbered: nat)

  /** The cues after pass 1. */
  function Repaired(cues: seq<Cue>, minMs: int): (r: seq<Cue>)
    ensures |r| == |cues| && forall k :: 0 <= k < |cues| ==> r[k] == Repair(cues[k], minMs)
  {
    seq(|cues|, k requires 0 <= k < |cues| => Repair(cues[k], minMs))
  }

  /** The cues after all three passes, the output list as indices into them, and the counters. */
  datatype Outcome = Outcome(cues: seq<Cue>, out: seq<nat>, stats: Stats)

  /** fix_timing_and_merge as a function. */
  function FixTiming(cues: seq<Cue>, minMs: int): (r: Outcome)
    ensures |r.cues| == |cues| && Below(r.out, |cues|)
  {
    var scan := Scan(Repaired(cues, minMs), minMs);
    var sweep := Sweep(scan.cues, scan.out, minMs);
    Outcome(sweep.0, scan.out, Stats(CountInvalid(cues) + scan.shifted + sweep.1, scan.merged, |scan.out|))
  }

  /**
   * The guarantees of fix_timing_and_merge: every cue is emitted once, in order, or merged;
   * adjacent output cues do not overlap; the output carries the input's words in order;
   * `renumbered` is the length of the output; and pass 3 never has anything to do, because the
   * scan already leaves the output free of overlaps.
   */
  lemma {:induction false} FixTimingProperties(cues: seq<Cue>, minMs: int)
    ensures var r := FixTiming(cues, minMs);
      Increasing(r.out) && |r.out| + r.stats.merged == |cues| && r.stats.renumbered == |r.out|
      && NonOverlapping(r.cues, r.out)
      && Transcript(Pick(r.cues, r.out)) == Transcript(cues)
      && r.stats.adjusted <= 2 * |cues|
      && r.cues == Scan(Repaired(cues, minMs), minMs).cues
  {
    var rep := Repaired(cues, minMs);
    var scan := Scan(rep, minMs);
    ScanProperties(rep, minMs);
    SweepFromNoop(scan.cues, scan.out, 1, minMs);
    RepairedTranscript(cues, minMs);
    var r := FixTiming(cues, minMs);
    assert r == Outcome(scan.cues, scan.out, Stats(CountInvalid(cues) + scan.shifted, scan.merged, |scan.out|));
  }

  lemma {:induction false} RepairedTranscript(cues: seq<Cue>, minMs: int)
    ensures Transcript(Repaired(cues, minMs)) == Transcript(cues)
    decreases |cues|
  {
    if cues != [] {
      RepairedTranscript(cues[1..], minMs);
      assert Repaired(cues, minMs)[1..] == Repaired(cues[1..], minMs);
    }
  }

  /** fix_timing_and_merge(subs, min_duration): the three passes, in place; the output list is returned as indices. */
  method FixTimingAndMerge(subs: array<Cue>, minMs: int) returns (out: seq<nat>, stats: Stats)
    modifies subs
    ensures Outcome(subs[..], out, stats) == FixTiming(old(subs[..]), minMs)
  {
    var repaired := RepairDurations(subs, minMs);
    assert subs[..] == Repaired(old(subs[..]), minMs);
    var shifted, merged;
    out, shifted, merged := ScanAndMerge(subs, minMs);
    var swept := SweepOverlaps(subs, out, minMs);
    stats := Stats(repaired + shifted + swept, merged, |out|);
  }
}
