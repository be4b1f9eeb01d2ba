/**
 * The timestamp codec of the fix-srt scripts (parse_timestamp and format_timestamp, written
 * identically in fix_srt.py and fix_srt_enhanced.py).  A time is a whole number of milliseconds.
 */
module Timestamp {
  import opened Wrappers
  import opened Text

  /** The scripts' `format` argument: 'vtt' selects WebVTT, every other value SubRip. */
  datatype Format = SrtFormat | VttFormat

  /** The character between seconds and milliseconds. */
  function Separator(f: Format): (c: char)
    ensures c == '.' <==> f == VttFormat
    ensures c == ',' || c == '.'
  {
    if f == VttFormat then '.' else ','
  }

  /** The other of the two formats, whose pattern parse_timestamp tries second. */
  function Other(f: Format): (g: Format)
    ensures g != f
  {
    if f == VttFormat then SrtFormat else VttFormat
  }

  datatype TimestampError = InvalidTimestamp(text: string)

  const MsPerSecond: nat := 1000
  const MsPerMinute: nat := 60 * MsPerSecond
  const MsPerHour: nat := 60 * MsPerMinute

  /** Two and three ASCII digits read as a number. */
  function Two(a: char, b: char): nat
    requires IsDigit(a) && IsDigit(b)
  {
    10 * DigitValue(a) + DigitValue(b)
  }

  function Three(a: char, b: char, c: char): nat
    requires IsDigit(a) && IsDigit(b) && IsDigit(c)
  {
    100 * DigitValue(a) + 10 * DigitValue(b) + DigitValue(c)
  }

  /** `ts` matches ^(\d{2}):(\d{2}):(\d{2})<sep>(\d{3})$ (digits read as ASCII). */
  predicate Matches(ts: string, sep: char) {
    |ts| == 12
    && IsDigit(ts[0]) && IsDigit(ts[1]) && ts[2] == ':'
    && IsDigit(ts[3]) && IsDigit(ts[4]) && ts[5] == ':'
    && IsDigit(ts[6]) && IsDigit(ts[7]) && ts[8] == sep
    && IsDigit(ts[9]) && IsDigit(ts[10]) && IsDigit(ts[11])
  }

  /** timedelta(hours=h, minutes=m, seconds=s, milliseconds=ms), in milliseconds. */
  function Millis(h: nat, m: nat, s: nat, ms: nat): nat {
    ((h * 60 + m) * 60 + s) * 1000 + ms
  }

  /** `ts` matches the pattern of one of the two formats. */
  predicate IsStamp(ts: string) {
    Matches(ts, ',') || Matches(ts, '.')
  }

  /** The four fields of a matched timestamp, read as numbers. */
  function Hours(ts: string): nat requires IsStamp(ts) { Two(ts[0], ts[1]) }
  function Minutes(ts: string): nat requires IsStamp(ts) { Two(ts[3], ts[4]) }
  function Seconds(ts: string): nat requires IsStamp(ts) { Two(ts[6], ts[7]) }
  function Milliseconds(ts: string): nat requires IsStamp(ts) { Three(ts[9], ts[10], ts[11]) }

  /** The time a matched timestamp denotes. */
  function MatchedTime(ts: string): nat
    requires IsStamp(ts)
  {
    Millis(Hours(ts), Minutes(ts), Seconds(ts), Milliseconds(ts))
  }

  /**
   * parse_timestamp: strip the text, try the requested format's pattern, then the other
   * one; raise if neither matches.
   */
  function ParseTimestamp(raw: string, f: Format): (r: Result<nat, TimestampError>)
    ensures r.Ok? <==> Matches(Strip(raw), ',') || Matches(Strip(raw), '.')
    ensures r.Err? ==> r.error == InvalidTimestamp(Strip(raw))
    ensures r.Ok? ==> r.value == MatchedTime(Strip(raw))
  {
    var ts := Strip(raw);
    if Matches(ts, Separator(f)) then Ok(MatchedTime(ts))
    else if Matches(ts, Separator(Other(f))) then Ok(MatchedTime(ts))
    else Err(InvalidTimestamp(ts))
  }

  /** A bare stamp has no surrounding whitespace, so parsing reads its fields directly. */
  lemma {:induction false} ParseStamp(ts: string, f: Format)
    requires IsStamp(ts)
    ensures ParseTimestamp(ts, f) == Ok(MatchedTime(ts))
  {
    assert IsStripped(ts) by {
      assert IsDigit(ts[0]) && IsDigit(ts[11]);
    }
    StrippedIsFixed(ts);
  }

  /** The format argument only decides which pattern is tried first; both give the same value. */
  lemma {:induction false} ParseIgnoresFormat(raw: string, f: Format, g: Format)
    ensures ParseTimestamp(raw, f) == ParseTimestamp(raw, g)
  {
  }

  /** A formatted timestamp: at least two hour digits, then :MM:SS<sep>mmm, minutes and seconds below 60. */
  predicate Shaped(r: string, sep: char) {
    var n := |r|;
    n >= 12 && AllDigits(r[..n - 10]) && r[n - 10] == ':'
    && IsDigit(r[n - 9]) && IsDigit(r[n - 8]) && Two(r[n - 9], r[n - 8]) < 60 && r[n - 7] == ':'
    && IsDigit(r[n - 6]) && IsDigit(r[n - 5]) && Two(r[n - 6], r[n - 5]) < 60 && r[n - 4] == sep
    && IsDigit(r[n - 3]) && IsDigit(r[n - 2]) && IsDigit(r[n - 1])
  }

  /** The time a formatted timestamp denotes. */
  function ShapedTime(r: string, sep: char): nat
    requires Shaped(r, sep)
  {
    var n := |r|;
    Millis(DecimalValue(r[..n - 10]), Two(r[n - 9], r[n - 8]), Two(r[n - 6], r[n - 5]), Three(r[n - 3], r[n - 2], r[n - 1]))
  }

  /** A digit character is the spelling of its value. */
  lemma {:induction false} DigitSpelling(c: char)
    requires IsDigit(c)
    ensures DigitChar(DigitValue(c)) == c
  {
  }

  /** `%02d` of a number below 100. */
  function Digits2(m: nat): (p: string)
    requires m < 100
    ensures |p| == 2 && IsDigit(p[0]) && IsDigit(p[1]) && Two(p[0], p[1]) == m
  {
    [DigitChar(m / 10), DigitChar(m % 10)]
  }

  /** `%03d` of a number below 1000. */
  function Digits3(m: nat): (p: string)
    requires m < 1000
    ensures |p| == 3 && IsDigit(p[0]) && IsDigit(p[1]) && IsDigit(p[2]) && Three(p[0], p[1], p[2]) == m
  {
    [DigitChar(m / 100), DigitChar(m / 10 % 10), DigitChar(m % 10)]
  }

  /** Two digits are the `%02d` spelling of the number they denote. */
  lemma {:induction false} Digits2Spelling(a: char, b: char)
    requires IsDigit(a) && IsDigit(b)
    ensures Digits2(Two(a, b)) == [a, b]
  {
    DigitSpelling(a);
    DigitSpelling(b);
  }

  lemma {:induction false} Digits3Spelling(a: char, b: char, c: char)
    requires IsDigit(a) && IsDigit(b) && IsDigit(c)
    ensures Digits3(Three(a, b, c)) == [a, b, c]
  {
    SplitThree(DigitValue(a), DigitValue(b), DigitValue(c));
    DigitSpelling(a);
    DigitSpelling(b);
    DigitSpelling(c);
  }

  lemma {:induction false} SplitThree(x: nat, y: nat, z: nat)
    requires x < 10 && y < 10 && z < 10
    ensures var n := 100 * x + 10 * y + z; n / 100 == x && n / 10 % 10 == y && n % 10 == z
  {
    var n := 100 * x + 10 * y + z;
    assert n / 10 == 10 * x + y;
  }

  /** For hours below 100, zero padding to width two is the `%02d` spelling. */
  lemma {:induction false} PadHours(h: nat)
    requires h < 100
    ensures ZeroPad(h, 2) == Digits2(h)
  {
    var p := ZeroPad(h, 2);
    assert p == [p[0], p[1]];
    TwoDigits(p[0], p[1]);
    Digits2Spelling(p[0], p[1]);
  }

  /** The fixed-width part after the hours: `:MM:SS<sep>mmm`. */
  function Tail(m: nat, s: nat, sep: char, ms: nat): (r: string)
    requires m < 60 && s < 60 && ms < 1000
    ensures |r| == 10 && r[0] == ':' && r[3] == ':' && r[6] == sep
    ensures IsDigit(r[1]) && IsDigit(r[2]) && Two(r[1], r[2]) == m
    ensures IsDigit(r[4]) && IsDigit(r[5]) && Two(r[4], r[5]) == s
    ensures IsDigit(r[7]) && IsDigit(r[8]) && IsDigit(r[9]) && Three(r[7], r[8], r[9]) == ms
  {
    ":" + Digits2(m) + ":" + Digits2(s) + [sep] + Digits3(ms)
  }

  /** Fields in range rendered as HH:MM:SS<sep>mmm, the hours padded to at least two digits. */
  function Render(h: nat, m: nat, s: nat, ms: nat, f: Format): (r: string)
    requires m < 60 && s < 60 && ms < 1000
    ensures Shaped(r, Separator(f)) && ShapedTime(r, Separator(f)) == Millis(h, m, s, ms)
    ensures h < 100 ==> Matches(r, Separator(f)) && MatchedTime(r) == Millis(h, m, s, ms)
  {
    var hh, tail := ZeroPad(h, 2), Tail(m, s, Separator(f), ms);
    var r := hh + tail;
    assert r[..|r| - 10] == hh;
    assert forall k :: 0 <= k < 10 ==> r[|hh| + k] == tail[k];
    if h < 100 then
      PadHours(h);
      r
    else
      r
  }

  /**
   * format_timestamp: negative times become zero; hours are printed with at least two
   * digits, minutes and seconds with two, milliseconds with three.
   */
  function FormatTimestamp(t: int, f: Format): (r: string)
    ensures Shaped(r, Separator(f))
    ensures ShapedTime(r, Separator(f)) == if t < 0 then 0 else t
    ensures 0 <= t < 100 * MsPerHour ==> Matches(r, Separator(f)) && MatchedTime(r) == t
  {
    var total: nat := if t < 0 then 0 else t;
    FieldsOfMillis(total);
    Render(total / 3600000, (total / 60000) % 60, (total / 1000) % 60, total % 1000, f)
  }

  // ---------------------------------------------------------------------------
  // Round trips

  /** A formatted time under 100 hours parses back, with either format argument, to itself. */
  lemma {:induction false} FormatThenParse(t: int, f: Format, g: Format)
    requires 0 <= t < 100 * MsPerHour
    ensures ParseTimestamp(FormatTimestamp(t, f), g) == Ok(t)
  {
    ParseStamp(FormatTimestamp(t, f), g);
  }

  /** Formatting the time that in-range fields denote renders those fields. */
  lemma {:induction false} FormatOfFields(h: nat, m: nat, s: nat, ms: nat, f: Format)
    requires m < 60 && s < 60 && ms < 1000
    ensures FormatTimestamp(Millis(h, m, s, ms), f) == Render(h, m, s, ms, f)
  {
    MillisFields(h, m, s, ms);
  }

  /** A matched timestamp is the spelling of its own fields. */
  lemma {:induction false} SpelledFields(ts: string, f: Format)
    requires Matches(ts, Separator(f))
    ensures ts == Digits2(Hours(ts)) + ":" + Digits2(Minutes(ts)) + ":" + Digits2(Seconds(ts)) + [Separator(f)] + Digits3(Milliseconds(ts))
  {
    Digits2Spelling(ts[0], ts[1]);
    Digits2Spelling(ts[3], ts[4]);
    Digits2Spelling(ts[6], ts[7]);
    Digits3Spelling(ts[9], ts[10], ts[11]);
    assert ts == [ts[0], ts[1]] + ":" + [ts[3], ts[4]] + ":" + [ts[6], ts[7]] + [Separator(f)] + [ts[9], ts[10], ts[11]];
  }

  /** A matched timestamp with minutes and seconds below 60 is the rendering of its own fields. */
  lemma {:induction false} RenderMatched(ts: string, f: Format)
    requires Matches(ts, Separator(f)) && Minutes(ts) < 60 && Seconds(ts) < 60
    ensures Render(Hours(ts), Minutes(ts), Seconds(ts), Milliseconds(ts), f) == ts
  {
    RenderAroundSeparator(Hours(ts), Minutes(ts), Seconds(ts), Milliseconds(ts), f);
    PadHours(Hours(ts));
    SpelledFields(ts, f);
  }

  /**
   * A timestamp of the requested format whose minutes and seconds are below 60 is
   * reproduced exactly (after stripping) by formatting the time it parses to.
   */
  lemma {:induction false} ParseThenFormat(raw: string, f: Format)
    requires Matches(Strip(raw), Separator(f))
    requires Minutes(Strip(raw)) < 60 && Seconds(Strip(raw)) < 60
    ensures ParseTimestamp(raw, f).Ok?
    ensures FormatTimestamp(ParseTimestamp(raw, f).value, f) == Strip(raw)
  {
    var ts := Strip(raw);
    FormatOfFields(Hours(ts), Minutes(ts), Seconds(ts), Milliseconds(ts), f);
    RenderMatched(ts, f);
  }

  /** Negative times are clamped: they format like zero. */
  lemma {:induction false} FormatClampsNegative(t: int, f: Format)
    requires t < 0
    ensures FormatTimestamp(t, f) == FormatTimestamp(0, f)
  {
  }

  /** The separator sits fourth from the end of a rendering; the text around it does not depend on it. */
  lemma {:induction false} RenderAroundSeparator(h: nat, m: nat, s: nat, ms: nat, f: Format)
    requires m < 60 && s < 60 && ms < 1000
    ensures var r := Render(h, m, s, ms, f);
      r == (ZeroPad(h, 2) + ":" + Digits2(m) + ":" + Digits2(s)) + [Separator(f)] + Digits3(ms)
  {
  }

  /** Two strings built around different middle characters differ only at that character. */
  lemma {:induction false} DifferAtMiddle(p: string, x: char, y: char, q: string)
    requires |q| == 3
    ensures var a, b := p + [x] + q, p + [y] + q;
      |a| == |b| && a[|a| - 4] == x && b[|b| - 4] == y
      && forall k :: 0 <= k < |a| && k != |a| - 4 ==> a[k] == b[k]
  {
    var a, b := p + [x] + q, p + [y] + q;
    forall k | 0 <= k < |a| && k != |a| - 4
      ensures a[k] == b[k]
    {
      if k < |p| {
        assert a[k] == p[k] == b[k];
      } else {
        assert a[k] == q[k - |p| - 1] == b[k];
      }
    }
  }

  /** SubRip and WebVTT renderings differ only in the separator before the milliseconds. */
  lemma {:induction false} FormatsDifferOnlyInSeparator(t: int)
    ensures var a, b := FormatTimestamp(t, SrtFormat), FormatTimestamp(t, VttFormat);
      |a| == |b| && a[|a| - 4] == ',' && b[|b| - 4] == '.'
      && forall k :: 0 <= k < |a| && k != |a| - 4 ==> a[k] == b[k]
  {
    var p, q := FormatAroundSeparator(t);
    DifferAtMiddle(p, ',', '.', q);
  }

  /** Both renderings of t share the text before the separator and the three digits after it. */
  lemma {:induction false} FormatAroundSeparator(t: int) returns (p: string, q: string)
    ensures |q| == 3
    ensures FormatTimestamp(t, SrtFormat) == p + [','] + q && FormatTimestamp(t, VttFormat) == p + ['.'] + q
  {
    var total: nat := if t < 0 then 0 else t;
    var h, m, sec, ms := total / 3600000, (total / 60000) % 60, (total / 1000) % 60, total % 1000;
    RenderAroundSeparator(h, m, sec, ms, SrtFormat);
    RenderAroundSeparator(h, m, sec, ms, VttFormat);
    p, q := ZeroPad(h, 2) + ":" + Digits2(m) + ":" + Digits2(sec), Digits3(ms);
  }

  // ---------------------------------------------------------------------------
  // Arithmetic on the fields

  /** Splitting a time into fields and recombining them gives the time back. */
  lemma {:induction false} FieldsOfMillis(t: nat)
    ensures Millis(t / 3600000, (t / 60000) % 60, (t / 1000) % 60, t % 1000) == t
  {
    var sec := t / 1000;
    var min := t / 60000;
    assert sec / 60 == min;
    assert min / 60 == t / 3600000;
  }

  /** Fields within range are recovered from the time they denote. */
  lemma {:induction false} MillisFields(h: nat, m: nat, s: nat, ms: nat)
    requires m < 60 && s < 60 && ms < 1000
    ensures var t := Millis(h, m, s, ms);
      t / 3600000 == h && (t / 60000) % 60 == m && (t / 1000) % 60 == s && t % 1000 == ms
  {
    var t := Millis(h, m, s, ms);
    var v := h * 60 + m;
    var u := v * 60 + s;
    assert t == u * 1000 + ms;
    assert t / 1000 == u && t % 1000 == ms;
    assert u % 60 == s;
    assert t == v * 60000 + (s * 1000 + ms);
    assert t / 60000 == v && v % 60 == m;
    assert t == h * 3600000 + (m * 60000 + s * 1000 + ms);
  }
}
