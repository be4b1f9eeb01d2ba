/**
 * normalize_time of srt_to_vtt.py: a SubRip clock time rewritten as a WebVTT timestamp
 * (hh:mm:ss.ttt), together with the time pattern parse_srt searches timing lines for.
 */
module VttTime {
  import opened Wrappers
  import opened Text
  import opened Timestamp
  import Normalize

  // ---------------------------------------------------------------------------
  // Single-character splitting

  /** What Find reports for a one-character pattern: the first position holding it. */
  lemma {:induction false} FindChar(s: string, c: char)
    ensures Find(s, [c]).Some? ==>
      (Find(s, [c]).value < |s| && s[Find(s, [c]).value] == c && forall j :: 0 <= j < Find(s, [c]).value ==> s[j] != c)
    ensures Find(s, [c]).None? <==> c !in s
  {
    match Find(s, [c])
    case Some(k) =>
      FindCharAt(s, c, k);
      assert s[k] in s;
    case None =>
      forall j | 0 <= j < |s|
        ensures s[j] != c
      {
        assert !At(s, [c], j);
        assert s[j..j + 1] == [s[j]];
      }
  }

  /** A one-character pattern found at k: s[k] is the first occurrence of c. */
  lemma {:induction false} FindCharAt(s: string, c: char, k: nat)
    requires Find(s, [c]) == Some(k)
    ensures k < |s| && s[k] == c && forall j :: 0 <= j < k ==> s[j] != c
  {
    assert s[k..k + 1] == [c];
    forall j | 0 <= j < k
      ensures s[j] != c
    {
      assert !At(s, [c], j);
      assert s[j..j + 1] == [s[j]];
    }
  }

  /** The pieces of s.split(c) hold no c. */
  lemma {:induction false} SplitPiecesNoSeparator(s: string, c: char)
    ensures forall k :: 0 <= k < |Split(s, [c])| ==> c !in Split(s, [c])[k]
    decreases |s|
  {
    FindChar(s, c);
    match Find(s, [c])
    case None =>
    case Some(k) =>
      var rest := s[k + 1..];
      SplitPiecesNoSeparator(rest, c);
      var parts := Split(s, [c]);
      assert parts == [s[..k]] + Split(rest, [c]);
      forall j | 0 <= j < |parts|
        ensures c !in parts[j]
      {
        if j > 0 {
          assert parts[j] == Split(rest, [c])[j - 1];
        }
      }
  }

  lemma {:induction false} InSlice(s: string, lo: nat, hi: nat, x: char)
    requires lo <= hi <= |s| && x in s[lo..hi]
    ensures x in s
  {
    var i :| 0 <= i < hi - lo && s[lo..hi][i] == x;
    assert s[lo + i] == x;
  }

  /** The pieces of s.split(c) hold only characters of s. */
  lemma {:induction false} SplitPiecesWithin(s: string, c: char)
    ensures forall k, x :: 0 <= k < |Split(s, [c])| && x in Split(s, [c])[k] ==> x in s
    decreases |s|
  {
    match Find(s, [c])
    case None =>
      assert Split(s, [c]) == [s];
    case Some(k) =>
      assert k + 1 <= |s|;
      var rest := s[k + 1..];
      SplitPiecesWithin(rest, c);
      var parts := Split(s, [c]);
      assert parts == [s[..k]] + Split(rest, [c]);
      forall j, x | 0 <= j < |parts| && x in parts[j]
        ensures x in s
      {
        if j == 0 {
          InSlice(s, 0, k, x);
        } else {
          assert x in Split(rest, [c])[j - 1];
          assert x in rest;
          assert s[k + 1..|s|] == rest;
          InSlice(s, k + 1, |s|, x);
        }
      }
  }

  /** The pieces of s.split(c) hold no c, and only characters of s. */
  lemma SplitPieces(s: string, c: char)
    ensures forall k :: 0 <= k < |Split(s, [c])| ==> c !in Split(s, [c])[k]
    ensures forall k, x :: 0 <= k < |Split(s, [c])| && x in Split(s, [c])[k] ==> x in s
  {
    SplitPiecesNoSeparator(s, c);
    SplitPiecesWithin(s, c);
  }

  // ---------------------------------------------------------------------------
  // s.replace(',', '.')

  /** Every comma turned into a full stop, every other character kept. */
  function CommasToPoints(s: string): (r: string)
    ensures |r| == |s| && ',' !in r
  {
    seq(|s|, i requires 0 <= i < |s| => if s[i] == ',' then '.' else s[i])
  }

  /** str.replace(',', '.') maps the text character by character. */
  lemma {:induction false} ReplaceCommas(s: string)
    ensures Normalize.ReplaceAll(s, ",", ".") == CommasToPoints(s)
    decreases |s|
  {
    match Find(s, ",")
    case None =>
      FindChar(s, ',');
      CommasAbsent(s);
    case Some(k) =>
      ReplaceCommas(s[k + 1..]);
      ReplaceCommasStep(s, k);
  }

  /** The step of ReplaceCommas at the first comma, k. */
  lemma {:induction false} ReplaceCommasStep(s: string, k: nat)
    requires Find(s, ",") == Some(k)
    requires Normalize.ReplaceAll(s[k + 1..], ",", ".") == CommasToPoints(s[k + 1..])
    ensures Normalize.ReplaceAll(s, ",", ".") == CommasToPoints(s)
  {
    FindCharAt(s, ',', k);
    Normalize.ReplaceAllAt(s, ",", ".");
    CommasToPointsAt(s, k);
  }

  lemma {:induction false} CommasAbsent(s: string)
    requires ',' !in s
    ensures CommasToPoints(s) == s
  {
    assert forall i :: 0 <= i < |s| ==> s[i] in s;
  }

  /** Cutting the text at its first comma. */
  lemma {:induction false} CommasToPointsAt(s: string, k: nat)
    requires k < |s| && s[k] == ',' && forall j :: 0 <= j < k ==> s[j] != ','
    ensures CommasToPoints(s) == s[..k] + "." + CommasToPoints(s[k + 1..])
  {
    var r, rest := CommasToPoints(s), s[k + 1..];
    assert forall i :: 0 <= i < |rest| ==> CommasToPoints(rest)[i] == r[k + 1 + i];
    assert r[..k] == s[..k];
    assert r == r[..k] + [r[k]] + r[k + 1..];
  }

  // ---------------------------------------------------------------------------
  // normalize_time

  /** str.zfill(2) on a one-character string: a sign stays in front of the padding zero. */
  function Zfill2(h: string): (r: string)
    requires |h| == 1
    ensures |r| == 2 && h[0] in r && forall x :: x in r ==> x == h[0] || x == '0'
    ensures IsDigit(h[0]) ==> r == ['0', h[0]]
  {
    if h[0] == '+' || h[0] == '-' then [h[0], '0'] else ['0', h[0]]
  }

  /** The hour field as normalize_time writes it: a single character is zero-filled to two. */
  function Hour(hh: string): (r: string)
    ensures |hh| == 1 ==> |r| == 2
    ensures |hh| != 1 ==> r == hh
  {
    if |hh| == 1 then Zfill2(hh) else hh
  }

  /**
   * The seconds field and the millisecond characters of ss: without a '.' the milliseconds
   * are empty, so that padding them gives the '.000' normalize_time appends; with more than
   * one '.' the two-way unpacking raises ValueError (None).
   */
  function SecondsAndFraction(ss: string): Option<(string, string)> {
    if !Contains(ss, ".") then Some((ss, ""))
    else
      var pieces := Split(ss, ".");
      if |pieces| == 2 then Some((pieces[0], pieces[1])) else None
  }

  /** The millisecond field: the given characters padded with zeros, then cut to three. */
  function Millis3(ms: string): (r: string)
    ensures |r| == 3
    ensures |ms| <= 3 ==> r == ms + Zeros(3 - |ms|)
    ensures |ms| >= 3 ==> r == ms[..3]
  {
    assert Zeros(3) == "000" && Zeros(2) == "00" && Zeros(1) == "0";
    (ms + "000")[..3]
  }

  /** s.strip().replace(',', '.'). */
  function PreparedStamp(raw: string): string {
    Normalize.ReplaceAll(Strip(raw), ",", ".")
  }

  /** The fields hh:mm:ss as normalize_time rewrites them. */
  function NormalFields(hh: string, mm: string, ss: string): Option<string> {
    match SecondsAndFraction(ss)
    case None => None
    case Some((sec, ms)) => Some(Hour(hh) + ":" + mm + ":" + sec + "." + Millis3(ms))
  }

  /**
   * normalize_time(s): strip, turn commas into full stops and, for exactly three ':'-fields,
   * zero-fill a one-character hour and give the seconds exactly three decimals.  None is
   * the ValueError raised when the seconds field holds more than one '.'.
   */
  function NormalizeTime(raw: string): (r: Option<string>)
    ensures r.None? ==> |Split(PreparedStamp(raw), ":")| == 3
    ensures |Split(PreparedStamp(raw), ":")| != 3 ==> r == Some(PreparedStamp(raw))
  {
    var s := PreparedStamp(raw);
    var parts := Split(s, ":");
    if |parts| == 3 then NormalFields(parts[0], parts[1], parts[2]) else Some(s)
  }

  /** Three fields without ':' joined by ':' split back into the same three. */
  lemma {:induction false} SplitAtColons(a: string, b: string, c: string)
    requires ':' !in a && ':' !in b && ':' !in c
    ensures Split(a + ":" + b + ":" + c, ":") == [a, b, c]
  {
    assert [a, b, c][1..] == [b, c] && [b, c][1..] == [c];
    assert Join([b, c], ":") == b + ":" + c;
    assert a + ":" + b + ":" + c == Join([a, b, c], ":");
    SplitJoin([a, b, c], ':');
  }

  /** Two fields without '.' joined by '.' split back into the same two. */
  lemma {:induction false} SplitAtPoint(a: string, b: string)
    requires '.' !in a && '.' !in b
    ensures Split(a + "." + b, ".") == [a, b]
    ensures SecondsAndFraction(a + "." + b) == Some((a, b))
  {
    assert a + "." + b == Join([a, b], ".");
    SplitJoin([a, b], '.');
    JoinSplit(a + "." + b, ".");
    FindChar(a + "." + b, '.');
    assert (a + "." + b)[|a|] == '.';
  }

  /** The text normalize_time works on: stripped, every comma a full stop and nothing else changed. */
  lemma {:induction false} PreparedText(raw: string)
    ensures PreparedStamp(raw) == CommasToPoints(Strip(raw))
    ensures IsStripped(PreparedStamp(raw))
  {
    ReplaceCommas(Strip(raw));
    CommasKeepStripped(Strip(raw));
  }

  /** Turning commas into full stops keeps a stripped text stripped. */
  lemma {:induction false} CommasKeepStripped(x: string)
    requires IsStripped(x)
    ensures IsStripped(CommasToPoints(x))
  {
    var u := CommasToPoints(x);
    if u != [] {
      assert u[0] == (if x[0] == ',' then '.' else x[0]);
      assert u[|u| - 1] == (if x[|x| - 1] == ',' then '.' else x[|x| - 1]);
    }
  }

  /** Without exactly three ':'-fields the text comes back stripped, commas turned into full stops. */
  lemma {:induction false} NormalizeTimeUnsplit(raw: string)
    requires |Split(CommasToPoints(Strip(raw)), ":")| != 3
    ensures NormalizeTime(raw) == Some(CommasToPoints(Strip(raw)))
    ensures IsStripped(NormalizeTime(raw).value) && ',' !in NormalizeTime(raw).value
  {
    PreparedText(raw);
  }

  /** The pieces SecondsAndFraction returns hold no '.' and no character foreign to ss. */
  lemma {:induction false} SecondsAndFractionPieces(ss: string)
    ensures SecondsAndFraction(ss).None? <==> |Split(ss, ".")| > 2
    ensures SecondsAndFraction(ss).Some? ==>
      var (sec, ms) := SecondsAndFraction(ss).value;
      '.' !in sec && '.' !in ms && (forall x :: x in sec ==> x in ss) && (forall x :: x in ms ==> x in ss)
  {
    SplitPieces(ss, '.');
    FindChar(ss, '.');
    var pieces := Split(ss, ".");
    if Find(ss, ".").None? {
      assert pieces == [ss];
    } else {
      var k := Find(ss, ".").value;
      assert pieces == [ss[..k]] + Split(ss[k + 1..], ".");
      if |pieces| == 2 {
        assert pieces[0] in pieces && pieces[1] in pieces;
      }
    }
  }

  /** Padding adds only zeros: no ':' and no '.' appear that were not there. */
  lemma {:induction false} Millis3Plain(ms: string)
    requires ':' !in ms && '.' !in ms
    ensures ':' !in Millis3(ms) && '.' !in Millis3(ms)
  {
    var m3 := Millis3(ms);
    forall x | x in m3 ensures x != ':' && x != '.'
    {
      var i :| 0 <= i < 3 && m3[i] == x;
      assert m3[i] == (ms + "000")[i];
      if i < |ms| {
        assert x == ms[i];
      }
    }
  }

  /** The three fields NormalFields writes split back apart at ':' and at the '.'. */
  lemma {:induction false} NormalFieldsSplit(hh: string, mm: string, ss: string)
    requires ':' !in hh && ':' !in mm && ':' !in ss
    ensures NormalFields(hh, mm, ss).None? <==> |Split(ss, ".")| > 2
    ensures NormalFields(hh, mm, ss).Some? ==>
      var (sec, ms) := SecondsAndFraction(ss).value;
      var f := Split(NormalFields(hh, mm, ss).value, ":");
      |f| == 3 && f[0] == Hour(hh) && f[1] == mm && Split(f[2], ".") == [sec, Millis3(ms)]
  {
    SecondsAndFractionPieces(ss);
    if SecondsAndFraction(ss).Some? {
      var (sec, ms) := SecondsAndFraction(ss).value;
      var m3 := Millis3(ms);
      assert ':' !in sec && ':' !in ms;
      Millis3Plain(ms);
      var hour := Hour(hh);
      assert ':' !in hour;
      assert NormalFields(hh, mm, ss).value == hour + ":" + mm + ":" + (sec + "." + m3);
      SplitAtColons(hour, mm, sec + "." + m3);
      SplitAtPoint(sec, m3);
    }
  }

  /**
   * With exactly three ':'-fields hh, mm and ss: the call fails exactly when ss holds more
   * than one '.'; otherwise the result has three ':'-fields again, the hour at least two
   * characters wide (unchanged unless it had one), the minutes unchanged, and the seconds
   * followed by '.' and exactly three millisecond characters, the given ones padded with
   * zeros or cut.
   */
  lemma {:induction false} NormalizeTimeFields(raw: string)
    requires |Split(CommasToPoints(Strip(raw)), ":")| == 3
    ensures var parts := Split(CommasToPoints(Strip(raw)), ":");
      NormalizeTime(raw).None? <==> |Split(parts[2], ".")| > 2
    ensures var parts := Split(CommasToPoints(Strip(raw)), ":");
      NormalizeTime(raw).Some? ==>
        var (sec, ms) := SecondsAndFraction(parts[2]).value;
        var f := Split(NormalizeTime(raw).value, ":");
        |f| == 3 && f[0] == Hour(parts[0]) && f[1] == parts[1]
        && Split(f[2], ".") == [sec, Millis3(ms)]
  {
    var s := CommasToPoints(Strip(raw));
    PreparedText(raw);
    var parts := Split(s, ":");
    SplitPieces(s, ':');
    assert parts[0] in parts && parts[1] in parts && parts[2] in parts;
    NormalFieldsSplit(parts[0], parts[1], parts[2]);
  }

  // ---------------------------------------------------------------------------
  // The clock times parse_srt searches for

  /** `t` matches \d{1,2}:\d{2}:\d{2}[,\.]\d{1,3} as a whole, with an hour field `h` digits wide. */
  predicate ClockTime(t: string, h: nat) {
    1 <= h <= 2 && h + 8 <= |t| <= h + 10
    && AllDigits(t[..h]) && t[h] == ':' && IsDigit(t[h + 1]) && IsDigit(t[h + 2])
    && t[h + 3] == ':' && IsDigit(t[h + 4]) && IsDigit(t[h + 5])
    && (t[h + 6] == ',' || t[h + 6] == '.') && AllDigits(t[h + 7..])
  }

  /** Milliseconds as WebVTT reads a fraction of one, two or three digits after the seconds. */
  function FractionMillis(f: string): nat
    requires 1 <= |f| <= 3 && AllDigits(f)
  {
    if |f| == 1 then 100 * DecimalValue(f) else if |f| == 2 then 10 * DecimalValue(f) else DecimalValue(f)
  }

  /** The three-character millisecond field of a fraction, read as a number. */
  lemma {:induction false} FractionValue(f: string)
    requires 1 <= |f| <= 3 && AllDigits(f)
    ensures AllDigits(Millis3(f)) && Three(Millis3(f)[0], Millis3(f)[1], Millis3(f)[2]) == FractionMillis(f)
  {
    assert [f[0]][..0] == [];
    assert DecimalValue([f[0]]) == DigitValue(f[0]);
    if |f| == 1 {
      assert f == [f[0]];
    } else if |f| == 2 {
      assert f[..1] == [f[0]];
      assert DecimalValue(f) == 10 * DigitValue(f[0]) + DigitValue(f[1]);
    } else {
      assert f[..2][..1] == [f[0]];
      assert DecimalValue(f[..2]) == 10 * DigitValue(f[0]) + DigitValue(f[1]);
      assert DecimalValue(f) == 100 * DigitValue(f[0]) + 10 * DigitValue(f[1]) + DigitValue(f[2]);
    }
  }

  /** The value of a two-digit field. */
  lemma {:induction false} TwoDigitValue(d: string)
    requires |d| == 2 && AllDigits(d)
    ensures DecimalValue(d) == Two(d[0], d[1])
  {
    assert d == [d[0], d[1]];
    TwoDigits(d[0], d[1]);
  }

  /** The two-digit field of t starting at i, read as a decimal number. */
  lemma {:induction false} DigitPairValue(t: string, i: nat)
    requires i + 2 <= |t| && IsDigit(t[i]) && IsDigit(t[i + 1])
    ensures DecimalValue(t[i..i + 2]) == Two(t[i], t[i + 1])
  {
    var d := t[i..i + 2];
    assert d[0] == t[i] && d[1] == t[i + 1];
    assert AllDigits(d);
    TwoDigitValue(d);
  }

  /** A clock time the pattern accepts, prepared: its separator turned into a full stop. */
  lemma {:induction false} ClockPrepared(t: string, h: nat)
    requires ClockTime(t, h)
    ensures PreparedStamp(t) == t[..h] + ":" + t[h + 1..h + 3] + ":" + (t[h + 4..h + 6] + "." + t[h + 7..])
  {
    assert IsStripped(t) by {
      assert IsDigit(t[0]) && IsDigit(t[|t| - 1]);
    }
    StrippedIsFixed(t);
    PreparedText(t);
    ClockCommas(t, h);
  }

  /** The separator of a clock time is its only character that can be a comma. */
  lemma {:induction false} ClockCommas(t: string, h: nat)
    requires ClockTime(t, h)
    ensures CommasToPoints(t) == t[..h] + ":" + t[h + 1..h + 3] + ":" + (t[h + 4..h + 6] + "." + t[h + 7..])
  {
    var u := CommasToPoints(t);
    forall i | 0 <= i < |t| && i != h + 6
      ensures u[i] == t[i]
    {
      if i < h {
        assert t[..h][i] == t[i];
      } else if i > h + 6 {
        assert t[h + 7..][i - h - 7] == t[i];
      }
    }
  }

  /** The fields of a prepared clock time hold no ':' and, after the seconds, no '.'. */
  lemma {:induction false} ClockFieldsPlain(t: string, h: nat)
    requires ClockTime(t, h)
    ensures ':' !in t[..h] && ':' !in t[h + 1..h + 3] && ':' !in t[h + 4..h + 6] + "." + t[h + 7..]
    ensures '.' !in t[h + 4..h + 6] && '.' !in t[h + 7..]
  {
  }

  /** The timestamp normalize_time writes for a clock time the pattern accepts. */
  function NormalClock(t: string, h: nat): string
    requires ClockTime(t, h)
  {
    Hour(t[..h]) + ":" + t[h + 1..h + 3] + ":" + t[h + 4..h + 6] + "." + Millis3(t[h + 7..])
  }

  /** The time a clock time denotes, its fraction read as a decimal fraction of a second. */
  function ClockMillis(t: string, h: nat): nat
    requires ClockTime(t, h)
  {
    Millis(DecimalValue(t[..h]), DecimalValue(t[h + 1..h + 3]), DecimalValue(t[h + 4..h + 6]), FractionMillis(t[h + 7..]))
  }

  /** The time a WebVTT timestamp written from a clock time denotes. */
  lemma {:induction false} NormalClockValue(t: string, h: nat)
    requires ClockTime(t, h)
    ensures Matches(NormalClock(t, h), '.')
    ensures MatchedTime(NormalClock(t, h)) == ClockMillis(t, h)
  {
    var hh, f := t[..h], t[h + 7..];
    var hour, m3 := Hour(hh), Millis3(f);
    var r := NormalClock(t, h);
    assert r == hour + ":" + t[h + 1..h + 3] + ":" + t[h + 4..h + 6] + "." + m3;
    if h == 1 {
      assert hour == ['0', t[0]];
      assert hh == [t[0]];
      assert hh[..0] == [];
      assert DecimalValue(hh) == DigitValue(t[0]);
    } else {
      TwoDigitValue(hh);
    }
    assert IsDigit(hour[0]) && IsDigit(hour[1]);
    FractionValue(f);
    assert r[0] == hour[0] && r[1] == hour[1] && r[2] == ':';
    assert r[3] == t[h + 1] && r[4] == t[h + 2] && r[5] == ':';
    assert r[6] == t[h + 4] && r[7] == t[h + 5] && r[8] == '.';
    assert r[9] == m3[0] && r[10] == m3[1] && r[11] == m3[2];
    assert Matches(r, '.');
    DigitPairValue(t, h + 1);
    DigitPairValue(t, h + 4);
    assert Hours(r) == DecimalValue(hh);
    assert Minutes(r) == DecimalValue(t[h + 1..h + 3]);
    assert Seconds(r) == DecimalValue(t[h + 4..h + 6]);
    assert Milliseconds(r) == FractionMillis(f);
  }

  /**
   * Every clock time the pattern accepts becomes a WebVTT timestamp hh:mm:ss.ttt denoting
   * the same time, the fraction read as a decimal fraction of a second.
   */
  lemma {:induction false} NormalizeClock(t: string, h: nat)
    requires ClockTime(t, h)
    ensures NormalizeTime(t) == Some(NormalClock(t, h)) && Matches(NormalClock(t, h), '.')
    ensures MatchedTime(NormalClock(t, h)) == ClockMillis(t, h)
  {
    var hh, mm, ss, f := t[..h], t[h + 1..h + 3], t[h + 4..h + 6], t[h + 7..];
    ClockPrepared(t, h);
    ClockFieldsPlain(t, h);
    SplitAtColons(hh, mm, ss + "." + f);
    SplitAtPoint(ss, f);
    NormalClockValue(t, h);
  }

  /** A WebVTT timestamp hh:mm:ss.ttt is already normal. */
  lemma {:induction false} NormalizeVttStamp(t: string)
    requires Matches(t, '.')
    ensures NormalizeTime(t) == Some(t)
  {
    assert ClockTime(t, 2);
    NormalizeClock(t, 2);
    assert Millis3(t[9..]) == t[9..][..3] == t[9..];
    assert Hour(t[..2]) == t[..2];
    VttStampFields(t);
  }

  /** A WebVTT timestamp cut into its fields. */
  lemma {:induction false} VttStampFields(t: string)
    requires Matches(t, '.')
    ensures t == t[..2] + ":" + t[3..5] + ":" + t[6..8] + "." + t[9..]
  {
  }
}
