/**
 * The Python string primitives the subtitle scripts are built from: whitespace as
 * str.isspace() sees it, strip/lstrip/rstrip, split() on whitespace, split(sep), join,
 * splitlines(), `sub in s`, and decimal digits.  Strings are sequences of code points.
 */
module Text {
  import opened Wrappers

  /** The characters for which Python's str.isspace() holds; `\s`, strip() and split() use the same set. */
  predicate IsSpace(c: char) {
    c == ' ' || ('\t' <= c <= '\r') || ('\U{1C}' <= c <= '\U{1F}') || c == '\U{85}' || c == '\U{A0}'
    || c == '\U{1680}' || ('\U{2000}' <= c <= '\U{200A}') || c == '\U{2028}' || c == '\U{2029}'
    || c == '\U{202F}' || c == '\U{205F}' || c == '\U{3000}'
  }

  predicate AllSpace(s: string) {
    forall j :: 0 <= j < |s| ==> IsSpace(s[j])
  }

  /** No leading and no trailing whitespace: what str.strip() returns. */
  predicate IsStripped(s: string) {
    s == [] || (!IsSpace(s[0]) && !IsSpace(s[|s| - 1]))
  }

  /** str.lstrip(): the suffix left after dropping leading whitespace (see LstripParts). */
  function Lstrip(s: string): (r: string)
    ensures |r| <= |s|
    ensures r == [] || !IsSpace(r[0])
  {
    if s != [] && IsSpace(s[0]) then Lstrip(s[1..]) else s
  }

  /** lstrip() removes a leading run of whitespace and nothing else. */
  lemma {:induction false} LstripParts(s: string)
    ensures var r := Lstrip(s); r == s[|s| - |r|..] && AllSpace(s[..|s| - |r|])
    decreases |s|
  {
    if s != [] && IsSpace(s[0]) {
      LstripParts(s[1..]);
      var r := Lstrip(s[1..]);
      assert s[..|s| - |r|] == [s[0]] + s[1..][..|s| - 1 - |r|];
    }
  }

  /** str.rstrip(): the prefix left after dropping trailing whitespace (see RstripParts). */
  function Rstrip(s: string): (r: string)
    ensures |r| <= |s|
    ensures r == [] || !IsSpace(r[|r| - 1])
  {
    if s != [] && IsSpace(s[|s| - 1]) then Rstrip(s[..|s| - 1]) else s
  }

  /** rstrip() removes a trailing run of whitespace and nothing else. */
  lemma {:induction false} RstripParts(s: string)
    ensures var r := Rstrip(s); r == s[..|r|] && AllSpace(s[|r|..])
    decreases |s|
  {
    if s != [] && IsSpace(s[|s| - 1]) {
      RstripParts(s[..|s| - 1]);
      var r := Rstrip(s[..|s| - 1]);
      assert s[|r|..] == s[..|s| - 1][|r|..] + [s[|s| - 1]];
    }
  }

  /** str.strip(). */
  function Strip(s: string): (r: string)
    ensures IsStripped(r)
    ensures |r| <= |s|
  {
    RstripParts(Lstrip(s));
    Rstrip(Lstrip(s))
  }

  lemma {:induction false} StrippedIsFixed(s: string)
    requires IsStripped(s)
    ensures Strip(s) == s
  {
  }

  // ---------------------------------------------------------------------------
  // The visible (non-whitespace) characters of a text

  /** The non-whitespace characters of `s`, in order. */
  function Visible(s: string): string {
    if s == [] then [] else (if IsSpace(s[0]) then [] else [s[0]]) + Visible(s[1..])
  }

  lemma {:induction false} VisibleCons(x: char, t: string)
    ensures Visible([x] + t) == (if IsSpace(x) then [] else [x]) + Visible(t)
  {
    assert ([x] + t)[1..] == t;
  }

  lemma {:induction false} VisibleAppend(a: string, b: string)
    ensures Visible(a + b) == Visible(a) + Visible(b)
    decreases |a|
  {
    if a == [] {
      assert a + b == b;
    } else {
      assert (a + b)[1..] == a[1..] + b;
      VisibleAppend(a[1..], b);
    }
  }

  lemma {:induction false} VisibleOfSpace(s: string)
    requires AllSpace(s)
    ensures Visible(s) == []
    decreases |s|
  {
    if s != [] {
      VisibleOfSpace(s[1..]);
    }
  }

  lemma {:induction false} LstripVisible(s: string)
    ensures Visible(Lstrip(s)) == Visible(s)
  {
    var l := Lstrip(s);
    LstripParts(s);
    var pre := s[..|s| - |l|];
    assert s == pre + l;
    VisibleAppend(pre, l);
    VisibleOfSpace(pre);
  }

  lemma {:induction false} RstripVisible(s: string)
    ensures Visible(Rstrip(s)) == Visible(s)
  {
    var r := Rstrip(s);
    RstripParts(s);
    var post := s[|r|..];
    assert s == r + post;
    VisibleAppend(r, post);
    VisibleOfSpace(post);
  }

  /** Stripping removes whitespace only. */
  lemma {:induction false} StripVisible(s: string)
    ensures Visible(Strip(s)) == Visible(s)
  {
    LstripVisible(s);
    RstripVisible(Lstrip(s));
  }

  // ---------------------------------------------------------------------------
  // str.split() with no argument

  /** Python's str.split(): the maximal runs of non-whitespace characters, in order. */
  function Words(s: string): seq<string> {
    WordsAcc(s, [])
  }

  /** Words of `s` when the word being read so far is `cur`. */
  function WordsAcc(s: string, cur: string): seq<string>
    decreases |s|
  {
    if s == [] then Flush(cur)
    else if IsSpace(s[0]) then Flush(cur) + WordsAcc(s[1..], [])
    else WordsAcc(s[1..], cur + [s[0]])
  }

  function Flush(cur: string): seq<string> {
    if cur == [] then [] else [cur]
  }

  /** A whitespace character ends the current word and starts afresh. */
  lemma {:induction false} WordsAccSplit(a: string, c: char, b: string, cur: string)
    requires IsSpace(c)
    ensures WordsAcc(a + [c] + b, cur) == WordsAcc(a, cur) + Words(b)
    decreases |a|
  {
    if a == [] {
      assert a + [c] + b == [c] + b;
      assert ([c] + b)[1..] == b;
    } else {
      assert (a + [c] + b)[1..] == a[1..] + [c] + b;
      WordsAccSplit(a[1..], c, b, if IsSpace(a[0]) then [] else cur + [a[0]]);
    }
  }

  lemma {:induction false} WordsOfSpace(s: string)
    requires AllSpace(s)
    ensures Words(s) == []
    decreases |s|
  {
    if s != [] {
      WordsOfSpace(s[1..]);
    }
  }

  lemma {:induction false} WordsLstrip(s: string)
    ensures Words(Lstrip(s)) == Words(s)
    decreases |s|
  {
    if s != [] && IsSpace(s[0]) {
      WordsLstrip(s[1..]);
    }
  }

  lemma {:induction false} WordsAccRstrip(s: string, cur: string)
    ensures WordsAcc(Rstrip(s), cur) == WordsAcc(s, cur)
  {
    var r := Rstrip(s);
    RstripParts(s);
    if r != s {
      var tail := s[|r|..];
      assert s == r + [tail[0]] + tail[1..];
      WordsAccSplit(r, tail[0], tail[1..], cur);
      WordsOfSpace(tail[1..]);
    }
  }

  /** Trimming the ends of a text keeps all its words. */
  lemma {:induction false} StripWords(s: string)
    ensures Words(Strip(s)) == Words(s)
  {
    WordsLstrip(s);
    WordsAccRstrip(Lstrip(s), []);
  }

  /**
   * Joining two texts the way a merge does, `a.rstrip() + ' ' + b.lstrip()`, yields
   * exactly the words of `a` followed by the words of `b`.
   */
  lemma {:induction false} JoinedWords(a: string, b: string)
    ensures Words(Rstrip(a) + " " + Lstrip(b)) == Words(a) + Words(b)
  {
    assert Rstrip(a) + " " + Lstrip(b) == Rstrip(a) + [' '] + Lstrip(b);
    WordsAccSplit(Rstrip(a), ' ', Lstrip(b), []);
    WordsAccRstrip(a, []);
    WordsLstrip(b);
  }

  // ---------------------------------------------------------------------------
  // Substrings, split(sep) and join

  /** `sub` occurs in `s` at position i. */
  predicate At(s: string, sub: string, i: nat) {
    i + |sub| <= |s| && s[i..i + |sub|] == sub
  }

  /** The first position of `sub` in `s` (Python's str.find). */
  function Find(s: string, sub: string): (r: Option<nat>)
    ensures r.Some? ==> At(s, sub, r.value) && forall j :: 0 <= j < r.value ==> !At(s, sub, j)
    ensures r.None? ==> forall j :: 0 <= j <= |s| ==> !At(s, sub, j)
    decreases |s|
  {
    if At(s, sub, 0) then Some(0)
    else if s == [] then None
    else
      var rest := Find(s[1..], sub);
      assert forall j :: 1 <= j <= |s| ==> (At(s, sub, j) <==> At(s[1..], sub, j - 1));
      if rest.Some? then Some(rest.value + 1) else None
  }

  /** Python's `sub in s`. */
  predicate Contains(s: string, sub: string) {
    Find(s, sub).Some?
  }

  /** Where Find reports a position, the text there is the searched one. */
  lemma {:induction false} FoundAt(s: string, sub: string, i: nat)
    requires Find(s, sub) == Some(i)
    ensures i + |sub| <= |s| && s[i..i + |sub|] == sub
  {
  }

  /** Text that does not contain `sub` differs from it at every position. */
  lemma {:induction false} AbsentAt(s: string, sub: string, j: nat)
    requires !Contains(s, sub) && j + |sub| <= |s|
    ensures s[j..j + |sub|] != sub
  {
    assert !At(s, sub, j);
  }

  /** Python's s.split(sep) for a non-empty separator. */
  function Split(s: string, sep: string): (r: seq<string>)
    requires sep != []
    ensures |r| >= 1
    decreases |s|
  {
    match Find(s, sep)
    case None => [s]
    case Some(k) => [s[..k]] + Split(s[k + |sep|..], sep)
  }

  /** Joining a first part onto a non-empty rest puts one separator between them. */
  lemma {:induction false} JoinCons(head: string, tail: seq<string>, sep: string)
    requires tail != []
    ensures Join([head] + tail, sep) == head + sep + Join(tail, sep)
  {
    assert ([head] + tail)[1..] == tail;
  }

  /** The first piece of a split ends at the first occurrence of the separator. */
  lemma {:induction false} SplitFirst(s: string, sep: string)
    requires sep != [] && Find(s, sep).Some?
    ensures Find(s, sep).value + |sep| <= |s|
    ensures Split(s, sep) == [s[..Find(s, sep).value]] + Split(s[Find(s, sep).value + |sep|..], sep)
  {
  }

  /** Python's sep.join(parts). */
  function Join(parts: seq<string>, sep: string): string {
    if parts == [] then [] else if |parts| == 1 then parts[0] else parts[0] + sep + Join(parts[1..], sep)
  }

  /** Splitting and joining again on the same separator gives the text back. */
  lemma {:induction false} JoinSplit(s: string, sep: string)
    requires sep != []
    ensures Join(Split(s, sep), sep) == s
    decreases |s|
  {
    if Find(s, sep).Some? {
      var k := Find(s, sep).value;
      SplitFirst(s, sep);
      FoundAt(s, sep, k);
      var rest := s[k + |sep|..];
      JoinCons(s[..k], Split(rest, sep), sep);
      JoinSplit(rest, sep);
      assert s == s[..k] + sep + rest;
    }
  }

  /** The first occurrence of a one-character separator is the first position holding it. */
  lemma {:induction false} FindFirstChar(p: string, c: char, rest: string)
    requires c !in p
    ensures Find(p + [c] + rest, [c]) == Some(|p|)
  {
    var s := p + [c] + rest;
    assert s[|p|..|p| + 1] == [c];
    assert At(s, [c], |p|);
    forall j | 0 <= j < |p|
      ensures !At(s, [c], j)
    {
      assert s[j] == p[j];
    }
    var r := Find(s, [c]);
    assert r.Some? && !(r.value < |p|) && !(r.value > |p|);
  }

  /** Joining pieces that do not contain the one-character separator and splitting again gives the pieces back. */
  lemma {:induction false} SplitJoin(parts: seq<string>, c: char)
    requires parts != []
    requires forall k :: 0 <= k < |parts| ==> c !in parts[k]
    ensures Split(Join(parts, [c]), [c]) == parts
    decreases |parts|
  {
    var p := parts[0];
    if |parts| == 1 {
      assert Find(p, [c]).None? by {
        forall j | 0 <= j < |p|
          ensures !At(p, [c], j)
        {
          assert p[j] != c;
        }
      }
    } else {
      var rest := Join(parts[1..], [c]);
      assert Join(parts, [c]) == p + [c] + rest;
      FindFirstChar(p, c, rest);
      assert (p + [c] + rest)[|p| + 1..] == rest;
      assert (p + [c] + rest)[..|p|] == p;
      SplitJoin(parts[1..], c);
    }
  }

  // ---------------------------------------------------------------------------
  // str.splitlines()

  /** The line boundaries of Python's str.splitlines(). */
  predicate IsLineBreak(c: char) {
    c == '\n' || c == '\r' || c == '\U{0B}' || c == '\U{0C}' || c == '\U{1C}' || c == '\U{1D}' || c == '\U{1E}'
    || c == '\U{85}' || c == '\U{2028}' || c == '\U{2029}'
  }

  /** The index of the first line boundary of `s`, or |s|. */
  function LineEnd(s: string): (k: nat)
    ensures k <= |s| && (k < |s| ==> IsLineBreak(s[k]))
    ensures forall j :: 0 <= j < k ==> !IsLineBreak(s[j])
  {
    if s == [] || IsLineBreak(s[0]) then 0 else 1 + LineEnd(s[1..])
  }

  /** Python's str.splitlines(): "\r\n" is one boundary and a final boundary adds no empty line. */
  function SplitLines(s: string): (r: seq<string>)
    ensures s == [] <==> r == []
    ensures forall k :: 0 <= k < |r| ==> forall j :: 0 <= j < |r[k]| ==> !IsLineBreak(r[k][j])
    decreases |s|
  {
    if s == [] then []
    else
      var k := LineEnd(s);
      if k == |s| then [s]
      else
        var width := if s[k] == '\r' && k + 1 < |s| && s[k + 1] == '\n' then 2 else 1;
        [s[..k]] + SplitLines(s[k + width..])
  }

  // ---------------------------------------------------------------------------
  // max() and min() on integers

  function Max(a: int, b: int): int {
    if a >= b then a else b
  }

  function Min(a: int, b: int): int {
    if a <= b then a else b
  }

  // ---------------------------------------------------------------------------
  // Decimal digits

  predicate IsDigit(c: char) {
    '0' <= c <= '9'
  }

  predicate AllDigits(s: string) {
    forall j :: 0 <= j < |s| ==> IsDigit(s[j])
  }

  function DigitValue(c: char): (d: nat)
    requires IsDigit(c)
    ensures d < 10
  {
    c as int - '0' as int
  }

  function DigitChar(d: nat): (c: char)
    requires d < 10
    ensures IsDigit(c) && DigitValue(c) == d
  {
    ('0' as int + d) as char
  }

  /** The number a string of decimal digits denotes (Python's int() on ASCII digits). */
  function DecimalValue(s: string): nat
    requires AllDigits(s)
  {
    if s == [] then 0 else DecimalValue(s[..|s| - 1]) * 10 + DigitValue(s[|s| - 1])
  }

  /** The decimal digits of n, without leading zeros (Python's str(n) for n >= 0). */
  function Decimal(n: nat): (r: string)
    ensures |r| >= 1 && AllDigits(r) && DecimalValue(r) == n
    ensures n < 10 ==> |r| == 1
    ensures 10 <= n < 100 ==> |r| == 2
    ensures 100 <= n < 1000 ==> |r| == 3
  {
    if n < 10 then [DigitChar(n)]
    else
      var r := Decimal(n / 10) + [DigitChar(n % 10)];
      assert r[..|r| - 1] == Decimal(n / 10);
      r
  }

  function Zeros(k: nat): (r: string)
    ensures |r| == k && forall j :: 0 <= j < k ==> r[j] == '0'
  {
    if k == 0 then [] else ['0'] + Zeros(k - 1)
  }

  lemma {:induction false} LeadingZerosValue(k: nat, d: string)
    requires AllDigits(d)
    ensures AllDigits(Zeros(k) + d) && DecimalValue(Zeros(k) + d) == DecimalValue(d)
    decreases |d|
  {
    var z := Zeros(k);
    if d == [] {
      assert z + d == z;
      ZerosValue(k);
    } else {
      assert (z + d)[..|z + d| - 1] == z + d[..|d| - 1];
      LeadingZerosValue(k, d[..|d| - 1]);
    }
  }

  lemma {:induction false} ZerosValue(k: nat)
    ensures AllDigits(Zeros(k)) && DecimalValue(Zeros(k)) == 0
    decreases k
  {
    if k > 0 {
      assert Zeros(k)[..k - 1] == Zeros(k - 1);
      ZerosValue(k - 1);
    }
  }

  /** Python's f"{n:0{width}d}" for n >= 0: the digits of n, left-padded with zeros to `width`. */
  function ZeroPad(n: nat, width: nat): (r: string)
    ensures AllDigits(r) && DecimalValue(r) == n
    ensures |r| >= width && |r| >= 1
    ensures |Decimal(n)| <= width ==> |r| == width
  {
    var d := Decimal(n);
    if |d| >= width then d
    else
      LeadingZerosValue(width - |d|, d);
      Zeros(width - |d|) + d
  }

  /** Two digits read as a number and padded back to width 2 give the same digits. */
  lemma {:induction false} TwoDigits(a: char, b: char)
    requires IsDigit(a) && IsDigit(b)
    ensures DecimalValue([a, b]) == 10 * DigitValue(a) + DigitValue(b)
    ensures ZeroPad(10 * DigitValue(a) + DigitValue(b), 2) == [a, b]
  {
    assert [a, b][..1] == [a];
    assert [a][..0] == [];
    var n := 10 * DigitValue(a) + DigitValue(b);
    if DigitValue(a) == 0 {
      assert Decimal(n) == [b];
      assert Zeros(1) == ['0'];
    } else {
      assert Decimal(n) == Decimal(n / 10) + [DigitChar(n % 10)];
    }
  }
}
