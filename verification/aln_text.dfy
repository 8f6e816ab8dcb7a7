/** Character classes and line tokenisation used by the `.aln` codec:
    the data-row pattern `^\s*\d+\s+` and whitespace splitting `str.split()`. */
module AlnText {

  /** Characters that Python's `str.isspace` (and hence `\s` and `str.split()`) treats as whitespace. */
  predicate IsSpace(c: char)
  {
    || ('\U{9}' <= c <= '\U{D}') || ('\U{1C}' <= c <= '\U{20}')
    || c == '\U{85}' || c == '\U{A0}' || c == '\U{1680}'
    || ('\U{2000}' <= c <= '\U{200A}') || c == '\U{2028}' || c == '\U{2029}'
    || c == '\U{202F}' || c == '\U{205F}' || c == '\U{3000}'
  }

  /** The decimal digits accepted by `\d` and by `int()` (ASCII only in this model). */
  predicate IsDigit(c: char)
  {
    '0' <= c <= '9'
  }

  predicate AllSpace(s: string)
  {
    forall k :: 0 <= k < |s| ==> IsSpace(s[k])
  }

  predicate AllDigits(s: string)
  {
    forall k :: 0 <= k < |s| ==> IsDigit(s[k])
  }

  /** Length of the longest prefix of `s` made of whitespace. */
  function SpaceRun(s: string): (n: nat)
    ensures n <= |s|
    ensures AllSpace(s[..n])
    ensures n < |s| ==> !IsSpace(s[n])
  {
    if |s| == 0 || !IsSpace(s[0]) then 0 else 1 + SpaceRun(s[1..])
  }

  /** Length of the longest prefix of `s` made of digits. */
  function DigitRun(s: string): (n: nat)
    ensures n <= |s|
    ensures AllDigits(s[..n])
    ensures n < |s| ==> !IsDigit(s[n])
  {
    if |s| == 0 || !IsDigit(s[0]) then 0 else 1 + DigitRun(s[1..])
  }

  /** Length of the longest prefix of `s` without whitespace: one token of `str.split()`. */
  function WordRun(s: string): (n: nat)
    ensures n <= |s|
    ensures forall k :: 0 <= k < n ==> !IsSpace(s[k])
    ensures n < |s| ==> IsSpace(s[n])
  {
    if |s| == 0 || IsSpace(s[0]) then 0 else 1 + WordRun(s[1..])
  }

  /** The declarative reading of `re.match(r"^\s*\d+\s+", line)`: some whitespace, at least
      one digit, then a whitespace character. */
  ghost predicate MatchesDataPattern(line: string)
  {
    exists i, j :: 0 <= i < j < |line| && AllSpace(line[..i]) && AllDigits(line[i..j]) && IsSpace(line[j])
  }

  /** `ALN_DATA_LINE.match(line)` as a scan: skip whitespace, take the digits, then require whitespace. */
  predicate IsDataLine(line: string)
  {
    var i := SpaceRun(line);
    var j := i + DigitRun(line[i..]);
    i < j < |line| && IsSpace(line[j])
  }

  /** The scanner decides exactly the regular expression, in both directions. */
  lemma DataLineIsPattern(line: string)
    ensures IsDataLine(line) <==> MatchesDataPattern(line)
  {
    if IsDataLine(line) {
      DataLineMatches(line);
    }
    if MatchesDataPattern(line) {
      PatternIsDataLine(line);
    }
  }

  /** A line the scanner accepts matches the pattern, with the scanner's own split points. */
  lemma DataLineMatches(line: string)
    requires IsDataLine(line)
    ensures MatchesDataPattern(line)
  {
    var i := SpaceRun(line);
    var j := i + DigitRun(line[i..]);
    assert line[i..j] == line[i..][..j - i];
    assert AllSpace(line[..i]) && AllDigits(line[i..j]) && IsSpace(line[j]);
  }

  /** Any way of matching the pattern is the scanner's: the split points are forced. */
  lemma PatternIsDataLine(line: string)
    requires MatchesDataPattern(line)
    ensures IsDataLine(line)
  {
    var i', j' :| 0 <= i' < j' < |line| && AllSpace(line[..i']) && AllDigits(line[i'..j']) && IsSpace(line[j']);
    assert IsDigit(line[i'..j'][0]);
    SpaceRunOf(line, i');
    var i := SpaceRun(line);
    assert line[i..][..j' - i] == line[i'..j'];
    assert !IsDigit(line[i..][j' - i]) by {
      assert line[i..][j' - i] == line[j'];
    }
    DigitRunOf(line[i..], j' - i);
  }

  lemma SpaceRunOf(s: string, i: nat)
    requires i < |s| && AllSpace(s[..i]) && !IsSpace(s[i])
    ensures SpaceRun(s) == i
  {
    if i > 0 {
      assert s[1..][..i - 1] == s[1..i];
      SpaceRunOf(s[1..], i - 1);
    }
  }

  lemma DigitRunOf(s: string, n: nat)
    requires n < |s| && AllDigits(s[..n]) && !IsDigit(s[n])
    ensures DigitRun(s) == n
  {
    if n > 0 {
      assert s[1..][..n - 1] == s[1..n];
      DigitRunOf(s[1..], n - 1);
    }
  }

  /** Python's `line.split()` with no separator: maximal runs of non-whitespace, in order. */
  function Fields(s: string): (fs: seq<string>)
    ensures forall k :: 0 <= k < |fs| ==> IsWord(fs[k])
    decreases |s|
  {
    if |s| == 0 then []
    else if IsSpace(s[0]) then Fields(s[1..])
    else
      var w := WordRun(s);
      [s[..w]] + Fields(s[w..])
  }

  /** A token `str.split()` can produce: non-empty and free of whitespace. */
  predicate IsWord(w: string)
  {
    |w| > 0 && forall k :: 0 <= k < |w| ==> !IsSpace(w[k])
  }

  /** The characters of `s` that are not whitespace, in order. */
  function NonSpace(s: string): (r: string)
    ensures |r| <= |s|
  {
    if |s| == 0 then [] else (if IsSpace(s[0]) then [] else [s[0]]) + NonSpace(s[1..])
  }

  function Concat(fs: seq<string>): string
  {
    if |fs| == 0 then [] else fs[0] + Concat(fs[1..])
  }

  /** Fields joined with single blanks, the layout a whitespace-separated row is written in. */
  function JoinBlank(fs: seq<string>): string
  {
    if |fs| == 0 then [] else if |fs| == 1 then fs[0] else fs[0] + " " + JoinBlank(fs[1..])
  }

  /** Splitting loses only whitespace: the fields hold exactly the non-blank characters of the line. */
  lemma {:induction false} FieldsKeepNonSpace(s: string)
    ensures Concat(Fields(s)) == NonSpace(s)
    decreases |s|
  {
    if |s| == 0 {
    } else if IsSpace(s[0]) {
      FieldsKeepNonSpace(s[1..]);
    } else {
      var w := WordRun(s);
      FieldsKeepNonSpace(s[w..]);
      NonSpaceOfWord(s, w);
    }
  }

  lemma {:induction false} NonSpaceOfWord(s: string, w: nat)
    requires w <= |s|
    requires forall k :: 0 <= k < w ==> !IsSpace(s[k])
    ensures NonSpace(s) == s[..w] + NonSpace(s[w..])
    decreases w
  {
    if w > 0 {
      NonSpaceOfWord(s[1..], w - 1);
      assert s[1..][w - 1..] == s[w..];
      assert s[..w] == [s[0]] + s[1..][..w - 1];
    }
  }

  /** Leading whitespace does not change the split. */
  lemma {:induction false} FieldsSkipSpace(s: string, i: nat)
    requires i <= |s| && AllSpace(s[..i])
    ensures Fields(s) == Fields(s[i..])
    decreases i
  {
    if i > 0 {
      assert IsSpace(s[..i][0]);
      assert s[1..][..i - 1] == s[1..i];
      FieldsSkipSpace(s[1..], i - 1);
      assert s[1..][i - 1..] == s[i..];
    }
  }

  /** A word followed by nothing or by whitespace is split off as the first field. */
  lemma FieldsOfWordThen(w: string, rest: string)
    requires IsWord(w)
    requires |rest| == 0 || IsSpace(rest[0])
    ensures Fields(w + rest) == [w] + Fields(rest)
  {
    var s := w + rest;
    assert s[..|w|] == w;
    WordRunOf(s, |w|);
    assert s[|w|..] == rest;
  }

  lemma {:induction false} WordRunOf(s: string, n: nat)
    requires n <= |s|
    requires forall k :: 0 <= k < n ==> !IsSpace(s[k])
    requires n == |s| || IsSpace(s[n])
    ensures WordRun(s) == n
    decreases n
  {
    if n > 0 {
      WordRunOf(s[1..], n - 1);
    }
  }

  /** Round trip: writing words separated by single blanks and splitting again gives the words back. */
  lemma {:induction false} SplitJoinBlank(fs: seq<string>)
    requires forall k :: 0 <= k < |fs| ==> IsWord(fs[k])
    ensures Fields(JoinBlank(fs)) == fs
    decreases |fs|
  {
    if |fs| == 1 {
      FieldsOfWordThen(fs[0], []);
      assert fs[0] + [] == fs[0];
    } else if |fs| > 1 {
      var tail := JoinBlank(fs[1..]);
      SplitJoinBlank(fs[1..]);
      var sp := " " + tail;
      assert sp[0] == ' ' && sp[1..] == tail;
      assert Fields(sp) == Fields(tail);
      FieldsOfWordThen(fs[0], sp);
      assert JoinBlank(fs) == fs[0] + sp;
      assert fs == [fs[0]] + fs[1..];
    }
  }

  /** On a data line the first field is exactly the digit run the pattern matched, so
      `int(fields[0])` is given a plain decimal numeral; CPython's 4300-digit limit on `int()` is
      not modelled. */
  lemma DataLineFirstField(line: string)
    requires IsDataLine(line)
    ensures |Fields(line)| >= 1
    ensures AllDigits(Fields(line)[0])
  {
    var i := SpaceRun(line);
    var t := line[i..];
    var d := DigitRun(t);
    FieldsSkipSpace(line, i);
    assert t[d] == line[i + d];
    forall k | 0 <= k < d
      ensures !IsSpace(t[k])
    {
      assert t[..d][k] == t[k];
    }
    WordRunOf(t, d);
    assert !IsSpace(t[0]);
    assert Fields(t) == [t[..d]] + Fields(t[d..]);
  }

  /** The value of a run of decimal digits, as `int()` reads it. */
  function DigitsValue(s: string): (v: nat)
    requires AllDigits(s)
  {
    if |s| == 0 then 0 else DigitsValue(s[..|s| - 1]) * 10 + (s[|s| - 1] as int - '0' as int)
  }

  /** A row written as blank-separated fields whose first field is a number matches the data
      pattern and splits back into exactly those fields. */
  lemma NumberedLine(fs: seq<string>)
    requires |fs| >= 2 && forall k :: 0 <= k < |fs| ==> IsWord(fs[k])
    requires AllDigits(fs[0])
    ensures IsDataLine(JoinBlank(fs)) && Fields(JoinBlank(fs)) == fs
  {
    SplitJoinBlank(fs);
    var line := JoinBlank(fs);
    var n := |fs[0]|;
    assert line == fs[0] + " " + JoinBlank(fs[1..]);
    assert line[..n] == fs[0] && line[n] == ' ';
    assert line[0] == fs[0][0];
    SpaceRunOf(line, 0);
    assert line[0..] == line;
    DigitRunOf(line, n);
  }
}
