/**
 * Subtitle cues and the block parser of the fix-srt scripts' read_srt, taken after the
 * file has been read into a string.
 */
module Subtitles {
  import opened Wrappers
  import opened Text
  import opened Timestamp

  /** A Subtitle: its number, start and end in milliseconds, and its text. */
  datatype Cue = Cue(index: int, start: int, end: int, content: string)

  /** Subtitle(index, start, end, content): the constructor strips the text it is given. */
  function NewSubtitle(index: int, start: int, end: int, content: string): (c: Cue)
    ensures c.index == index && c.start == start && c.end == end
    ensures IsStripped(c.content)
    ensures Visible(c.content) == Visible(content) && Words(c.content) == Words(content)
  {
    StripVisible(content);
    StripWords(content);
    Cue(index, start, end, Strip(content))
  }

  /** Subtitle.duration, in milliseconds. */
  function Duration(c: Cue): int {
    c.end - c.start
  }

  // ---------------------------------------------------------------------------
  // Python's int() on a stripped string (ASCII digits)

  /** Digits with single underscores between them, as int() accepts. */
  predicate IsIntBody(b: string) {
    |b| >= 1
    && (forall j :: 0 <= j < |b| ==> IsDigit(b[j]) || b[j] == '_')
    && (forall j :: 0 <= j < |b| && b[j] == '_' ==> 0 < j < |b| - 1 && IsDigit(b[j - 1]) && IsDigit(b[j + 1]))
  }

  /** The digits of `b` with the underscores dropped. */
  function DigitsOf(b: string): (d: string)
    ensures AllDigits(d) || exists j :: 0 <= j < |b| && !IsDigit(b[j]) && b[j] != '_'
  {
    if b == [] then []
    else if b[0] == '_' then DigitsOf(b[1..])
    else if IsDigit(b[0]) then [b[0]] + DigitsOf(b[1..])
    else
      assert !IsDigit(b[0]) && b[0] != '_';
      []
  }

  lemma {:induction false} DigitsOfBody(b: string)
    requires forall j :: 0 <= j < |b| ==> IsDigit(b[j]) || b[j] == '_'
    ensures AllDigits(DigitsOf(b))
  {
  }

  /** int(s) for a stripped s: an optional sign, then an integer body; None where Python raises ValueError. */
  function ParseInt(s: string): (r: Option<int>)
    ensures r.Some? ==> s != [] && !IsSpace(s[0])
  {
    var signed := s != [] && (s[0] == '-' || s[0] == '+');
    var body := if signed then s[1..] else s;
    if IsIntBody(body) then
      DigitsOfBody(body);
      var v: int := DecimalValue(DigitsOf(body));
      Some(if signed && s[0] == '-' then -v else v)
    else
      None
  }

  /** int(str(n)) == n: a number's decimal spelling reads back as the number. */
  lemma {:induction false} ParseIntDecimal(n: nat)
    ensures ParseInt(Decimal(n)) == Some(n)
  {
    var d := Decimal(n);
    assert d[0] != '-' && d[0] != '+' by {
      assert IsDigit(d[0]);
    }
    DigitsOfDigits(d);
  }

  lemma {:induction false} DigitsOfDigits(d: string)
    requires AllDigits(d)
    ensures DigitsOf(d) == d
  {
    if d != [] {
      DigitsOfDigits(d[1..]);
    }
  }

  // ---------------------------------------------------------------------------
  // Splitting the text into blocks

  /** The end of the run of newlines starting at i. */
  function NewlineRunEnd(s: string, i: nat): (j: nat)
    requires i <= |s|
    ensures i <= j <= |s| && (j < |s| ==> s[j] != '\n')
    ensures forall k :: i <= k < j ==> s[k] == '\n'
    decreases |s| - i
  {
    if i < |s| && s[i] == '\n' then NewlineRunEnd(s, i + 1) else i
  }

  /** re.split(r"\n{2,}", s): the pieces between maximal runs of two or more newlines. */
  function Paragraphs(s: string): (r: seq<string>)
    ensures |r| >= 1
    decreases |s|
  {
    match Find(s, "\n\n")
    case None => [s]
    case Some(i) => [s[..i]] + Paragraphs(s[NewlineRunEnd(s, i)..])
  }

  /** No block holds a blank line. */
  lemma {:induction false} ParagraphsHaveNoBlankLine(s: string)
    ensures forall k :: 0 <= k < |Paragraphs(s)| ==> !Contains(Paragraphs(s)[k], "\n\n")
    decreases |s|
  {
    match Find(s, "\n\n")
    case None =>
    case Some(i) =>
      NoEarlierPair(s, i);
      var rest := s[NewlineRunEnd(s, i)..];
      ParagraphsHaveNoBlankLine(rest);
      assert Paragraphs(s) == [s[..i]] + Paragraphs(rest);
  }

  /** The text before the first "\n\n" holds no "\n\n". */
  lemma {:induction false} NoEarlierPair(s: string, i: nat)
    requires Find(s, "\n\n") == Some(i)
    ensures !Contains(s[..i], "\n\n")
  {
    var p := s[..i];
    forall j | 0 <= j <= |p|
      ensures !At(p, "\n\n", j)
    {
      if At(p, "\n\n", j) {
        assert s[j..j + 2] == p[j..j + 2];
        assert At(s, "\n\n", j);
      }
    }
  }

  /** Where blank lines are single (no three newlines in a row), the blocks joined by one blank line give the text back. */
  lemma {:induction false} JoinParagraphs(s: string)
    requires !Contains(s, "\n\n\n")
    ensures Join(Paragraphs(s), "\n\n") == s
    decreases |s|
  {
    match Find(s, "\n\n")
    case None =>
    case Some(i) =>
      SingleBlankLine(s, i);
      var rest := s[i + 2..];
      NoTripleInSuffix(s, i + 2);
      JoinParagraphs(rest);
      var tail := Paragraphs(rest);
      assert Paragraphs(s) == [s[..i]] + tail;
      assert Join(Paragraphs(s), "\n\n") == s[..i] + "\n\n" + Join(tail, "\n\n");
      assert s == s[..i] + "\n\n" + rest;
  }

  /** Without three newlines in a row, the run of newlines at the first "\n\n" has exactly two. */
  lemma {:induction false} SingleBlankLine(s: string, i: nat)
    requires !Contains(s, "\n\n\n") && Find(s, "\n\n") == Some(i)
    ensures i + 2 <= |s| && s[i..i + 2] == "\n\n" && NewlineRunEnd(s, i) == i + 2
  {
    FoundAt(s, "\n\n", i);
    assert s[i] == '\n' && s[i + 1] == '\n' by {
      assert s[i..i + 2][0] == s[i] && s[i..i + 2][1] == s[i + 1];
    }
    if i + 2 < |s| {
      AbsentAt(s, "\n\n\n", i);
      assert s[i..i + 3] == [s[i], s[i + 1], s[i + 2]];
    }
    assert NewlineRunEnd(s, i + 2) == i + 2;
  }

  /** A suffix of a text without three newlines in a row has none either. */
  lemma {:induction false} NoTripleInSuffix(s: string, d: nat)
    requires d <= |s| && !Contains(s, "\n\n\n")
    ensures !Contains(s[d..], "\n\n\n")
  {
    var rest := s[d..];
    forall j | 0 <= j <= |rest|
      ensures !At(rest, "\n\n\n", j)
    {
      if At(rest, "\n\n\n", j) {
        assert s[d + j..d + j + 3] == rest[j..j + 3];
        assert At(s, "\n\n\n", d + j);
      }
    }
  }

  // ---------------------------------------------------------------------------
  // One block

  datatype ReadError = BadTimestamp(cause: TimestampError) | TooManyArrows(pieces: nat)

  /** The arrow between the two timestamps of a cue timing line. */
  const Arrow: string := "-->"

  /** What a block says, before it is numbered: its own number if it has one, its times and its text. */
  datatype Block = Block(number: Option<int>, start: int, end: int, text: string)

  /**
   * The first line is the cue number when int() accepts it, and the timing line follows it;
   * otherwise the block has no number and the first line is the timing line.
   */
  function Header(lines: seq<string>): (h: (Option<int>, string, seq<string>))
    requires |lines| >= 2
    ensures h.0 == ParseInt(Strip(lines[0]))
    ensures h.0.Some? ==> h.1 == lines[1] && h.2 == lines[2..]
    ensures h.0.None? ==> h.1 == lines[0] && h.2 == lines[1..]
  {
    match ParseInt(Strip(lines[0]))
    case Some(i) => (Some(i), lines[1], lines[2..])
    case None => (None, lines[0], lines[1..])
  }

  /** Splitting a timing line at its arrows: exactly two halves, each a timestamp. */
  function ReadTimes(times: string, f: Format): (r: Result<(int, int), ReadError>)
    requires Contains(times, Arrow)
    ensures r.Ok? <==> (|Split(times, Arrow)| == 2
      && ParseTimestamp(Split(times, Arrow)[0], f).Ok? && ParseTimestamp(Split(times, Arrow)[1], f).Ok?)
    ensures r.Ok? ==> r.value == (ParseTimestamp(Split(times, Arrow)[0], f).value, ParseTimestamp(Split(times, Arrow)[1], f).value)
  {
    var halves := Split(times, Arrow);
    StripIdempotent(halves[0]);
    if |halves| != 2 then Err(TooManyArrows(|halves|))
    else
      StripIdempotent(halves[1]);
      match ParseTimestamp(Strip(halves[0]), f)
      case Err(e) => Err(BadTimestamp(e))
      case Ok(start) =>
        match ParseTimestamp(Strip(halves[1]), f)
        case Err(e) => Err(BadTimestamp(e))
        case Ok(end) => Ok((start, end))
  }

  /** parse_timestamp strips its argument, so stripping the halves first changes nothing. */
  lemma {:induction false} StripIdempotent(s: string)
    ensures forall f :: ParseTimestamp(Strip(s), f) == ParseTimestamp(s, f)
  {
    StrippedIsFixed(Strip(s));
  }

  /**
   * The body of read_srt's loop for one block: Ok(None) skips it (fewer than two lines, or
   * no arrow on the timing line), Err aborts the whole read.
   */
  function ReadBlock(part: string, f: Format): (r: Result<Option<Block>, ReadError>)
    ensures r.Ok? && r.value.Some? ==> IsStripped(r.value.value.text)
  {
    var lines := SplitLines(Strip(part));
    if |lines| < 2 then Ok(None)
    else
      var (number, times, body) := Header(lines);
      if !Contains(times, Arrow) then Ok(None)
      else
        match ReadTimes(times, f)
        case Err(e) => Err(e)
        case Ok((start, end)) => Ok(Some(Block(number, start, end, Strip(Join(body, "\n")))))
  }

  /** A block is skipped exactly when it has fewer than two lines or its timing line has no arrow. */
  lemma {:induction false} ReadBlockSkips(part: string, f: Format)
    ensures var lines := SplitLines(Strip(part));
      ReadBlock(part, f) == Ok(None) <==> |lines| < 2 || !Contains(Header(lines).1, Arrow)
  {
  }

  /** A read block's text has the words of the lines after its timing line. */
  lemma {:induction false} ReadBlockText(part: string, f: Format)
    requires ReadBlock(part, f).Ok? && ReadBlock(part, f).value.Some?
    ensures var lines := SplitLines(Strip(part));
      |lines| >= 2 && Words(ReadBlock(part, f).value.value.text) == Words(Join(Header(lines).2, "\n"))
  {
    var lines := SplitLines(Strip(part));
    StripWords(Join(Header(lines).2, "\n"));
  }

  /** A Subtitle for a read block: its own number, or else its 1-based position among the cues read. */
  function Number(b: Block, count: nat): (c: Cue)
    ensures c.index == if b.number.Some? then b.number.value else count + 1
    ensures c.start == b.start && c.end == b.end
    ensures IsStripped(c.content) && (IsStripped(b.text) ==> c.content == b.text)
  {
    var c := NewSubtitle(if b.number.Some? then b.number.value else count + 1, b.start, b.end, b.text);
    if IsStripped(b.text) then
      StrippedIsFixed(b.text);
      c
    else
      c
  }

  // ---------------------------------------------------------------------------
  // The whole text

  /** What ReadBlock makes of each block. */
  type BlockResult = Result<Option<Block>, ReadError>

  /**
   * read_srt's loop over the blocks: `acc` holds the cues read so far; the first rejected
   * block aborts the read.
   */
  function Collect(results: seq<BlockResult>, acc: seq<Cue>): (r: Result<seq<Cue>, ReadError>)
    ensures r.Ok? ==> |acc| <= |r.value| <= |acc| + |results| && r.value[..|acc|] == acc
    decreases |results|
  {
    if results == [] then Ok(acc)
    else
      match results[0]
      case Err(e) => Err(e)
      case Ok(None) => Collect(results[1..], acc)
      case Ok(Some(b)) =>
        var c := Number(b, |acc|);
        var r := Collect(results[1..], acc + [c]);
        if r.Ok? then
          PrefixOfExtended(acc, c, r.value);
          r
        else
          r
  }

  /** Every cue read has stripped text. */
  lemma {:induction false} CollectStripped(results: seq<BlockResult>, acc: seq<Cue>)
    requires forall k :: 0 <= k < |acc| ==> IsStripped(acc[k].content)
    ensures var r := Collect(results, acc);
      r.Ok? ==> forall k :: 0 <= k < |r.value| ==> IsStripped(r.value[k].content)
    decreases |results|
  {
    if results != [] {
      match results[0]
      case Err(_) =>
      case Ok(None) => CollectStripped(results[1..], acc);
      case Ok(Some(b)) => CollectStripped(results[1..], acc + [Number(b, |acc|)]);
    }
  }

  /** Reading fails exactly when some block is rejected. */
  lemma {:induction false} CollectFails(results: seq<BlockResult>, acc: seq<Cue>)
    ensures Collect(results, acc).Err? <==> exists k :: 0 <= k < |results| && results[k].Err?
    decreases |results|
  {
    if results != [] {
      FirstOrRest(results);
      match results[0]
      case Err(_) =>
      case Ok(None) => CollectFails(results[1..], acc);
      case Ok(Some(b)) => CollectFails(results[1..], acc + [Number(b, |acc|)]);
    }
  }

  lemma {:induction false} FirstOrRest(results: seq<BlockResult>)
    requires results != []
    ensures (exists k :: 0 <= k < |results| && results[k].Err?)
      <==> results[0].Err? || exists k :: 0 <= k < |results[1..]| && results[1..][k].Err?
  {
    if k :| 0 <= k < |results| && results[k].Err? {
      if k > 0 {
        assert results[1..][k - 1] == results[k];
      }
    }
  }

  /** A sequence that starts with `acc + [c]` starts with `acc`, and holds `c` next. */
  lemma {:induction false} PrefixOfExtended(acc: seq<Cue>, c: Cue, r: seq<Cue>)
    requires |acc| + 1 <= |r| && r[..|acc| + 1] == acc + [c]
    ensures r[..|acc|] == acc && r[|acc|] == c
  {
    assert r[..|acc|] == r[..|acc| + 1][..|acc|];
  }

  /** The text left after read_srt drops a leading WEBVTT line (only when reading WebVTT). */
  function DropVttHeader(text: string, f: Format): (r: string)
    ensures f == SrtFormat ==> r == text
  {
    var lines := SplitLines(text);
    if f == VttFormat && |lines| > 0 && StartsWith(Strip(lines[0]), "WEBVTT") then Join(lines[1..], "\n") else text
  }

  predicate StartsWith(s: string, prefix: string) {
    |prefix| <= |s| && s[..|prefix|] == prefix
  }

  /** The blocks of a text, as read_srt splits it. */
  function Blocks(text: string, f: Format): (r: seq<string>)
    ensures |r| >= 1 && forall k :: 0 <= k < |r| ==> !Contains(r[k], "\n\n")
  {
    ParagraphsHaveNoBlankLine(Strip(DropVttHeader(text, f)));
    Paragraphs(Strip(DropVttHeader(text, f)))
  }

  /** ReadBlock applied to every block. */
  function ReadBlocks(parts: seq<string>, f: Format): (results: seq<BlockResult>)
    ensures |results| == |parts|
    ensures forall k :: 0 <= k < |parts| ==> results[k] == ReadBlock(parts[k], f)
  {
    seq(|parts|, k requires 0 <= k < |parts| => ReadBlock(parts[k], f))
  }

  /**
   * read_srt after the file is read: at most one cue per block, and every cue's text
   * stripped.
   */
  function ReadSrt(text: string, f: Format): (r: Result<seq<Cue>, ReadError>)
    ensures r.Ok? ==> |r.value| <= |Blocks(text, f)| && forall k :: 0 <= k < |r.value| ==> IsStripped(r.value[k].content)
  {
    var results := ReadBlocks(Blocks(text, f), f);
    CollectStripped(results, []);
    Collect(results, [])
  }

  /** Reading a list of blocks fails exactly when one of them is rejected. */
  lemma {:induction false} ReadBlocksFail(parts: seq<string>, f: Format)
    ensures Collect(ReadBlocks(parts, f), []).Err? <==> exists k :: 0 <= k < |parts| && ReadBlock(parts[k], f).Err?
  {
    var results := ReadBlocks(parts, f);
    CollectFails(results, []);
    if k :| 0 <= k < |parts| && ReadBlock(parts[k], f).Err? {
      assert results[k].Err?;
    }
    if k :| 0 <= k < |results| && results[k].Err? {
      assert ReadBlock(parts[k], f).Err?;
    }
  }

  /** Reading fails exactly when some block has a timing line that does not parse; nothing is skipped silently on error. */
  lemma {:induction false} ReadSrtFails(text: string, f: Format)
    ensures ReadSrt(text, f).Err? <==> exists k :: 0 <= k < |Blocks(text, f)| && ReadBlock(Blocks(text, f)[k], f).Err?
  {
    ReadBlocksFail(Blocks(text, f), f);
  }
}
