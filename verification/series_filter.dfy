/** Choosing which tilt series to process: the `--include` / `--exclude` option values are split
    into glob patterns, and a discovered stem survives when some include pattern matches it (or
    there are none) and no exclude pattern does. Glob matching is a parameter `matches(stem, pattern)`
    standing for `fnmatch.fnmatch`. */
module SeriesFilter {
  import opened Results
  import opened AlnText

  // ----- Python's `str.split(sep)` -----

  /** `s.split(sep)`: the pieces between occurrences of `sep`, always at least one. */
  function Split(s: string, sep: char): (r: seq<string>)
    ensures |r| >= 1
    ensures forall k :: 0 <= k < |r| ==> sep !in r[k]
    decreases |s|
  {
    if |s| == 0 then [""]
    else
      var rest := Split(s[1..], sep);
      if s[0] == sep then [""] + rest
      else [[s[0]] + rest[0]] + rest[1..]
  }

  /** `sep.join(ps)`. */
  function Join(ps: seq<string>, sep: char): string
    requires |ps| >= 1
    decreases |ps|
  {
    if |ps| == 1 then ps[0] else ps[0] + [sep] + Join(ps[1..], sep)
  }

  /** Joining the pieces gives back the string that was split. */
  lemma {:induction false} JoinSplit(s: string, sep: char)
    ensures Join(Split(s, sep), sep) == s
    decreases |s|
  {
    if |s| > 0 {
      JoinSplit(s[1..], sep);
      var rest := Split(s[1..], sep);
      if s[0] == sep {
        assert Split(s, sep) == [""] + rest;
        assert ([""] + rest)[1..] == rest;
        assert s == [sep] + s[1..];
      } else {
        var r := Split(s, sep);
        assert r == [[s[0]] + rest[0]] + rest[1..];
        if |rest| == 1 {
          assert s == [s[0]] + s[1..];
        } else {
          assert r[1..] == rest[1..];
          assert Join(rest, sep) == rest[0] + [sep] + Join(rest[1..], sep);
          assert s == [s[0]] + s[1..];
        }
      }
    }
  }

  /** Splitting a word that holds no separator, followed by `tail`, glues the word to the first
      piece of `tail`. */
  lemma {:induction false} SplitWordThen(w: string, tail: string, sep: char)
    requires sep !in w
    ensures Split(w + tail, sep) == [w + Split(tail, sep)[0]] + Split(tail, sep)[1..]
    decreases |w|
  {
    if |w| > 0 {
      SplitWordThen(w[1..], tail, sep);
      assert (w + tail)[1..] == w[1..] + tail;
      assert (w + tail)[0] == w[0];
      assert [w[0]] + (w[1..] + Split(tail, sep)[0]) == w + Split(tail, sep)[0];
    } else {
      assert w + tail == tail;
      assert w + Split(tail, sep)[0] == Split(tail, sep)[0];
      assert Split(tail, sep) == [Split(tail, sep)[0]] + Split(tail, sep)[1..];
    }
  }

  /** Splitting what was joined from separator-free pieces gives back the pieces. */
  lemma {:induction false} SplitJoin(ps: seq<string>, sep: char)
    requires |ps| >= 1 && forall k :: 0 <= k < |ps| ==> sep !in ps[k]
    ensures Split(Join(ps, sep), sep) == ps
    decreases |ps|
  {
    if |ps| == 1 {
      SplitWordThen(ps[0], "", sep);
      assert ps[0] + "" == ps[0];
    } else {
      var tail := Join(ps[1..], sep);
      SplitJoin(ps[1..], sep);
      var s := [sep] + tail;
      assert s[1..] == tail;
      assert Split(s, sep) == [""] + ps[1..];
      assert ps[0] + [sep] + tail == ps[0] + s;
      SplitWordThen(ps[0], s, sep);
      assert ps[0] + "" == ps[0];
    }
  }

  // ----- Python's `str.strip()` -----

  /** `s.lstrip()`. */
  function StripLeft(s: string): (r: string)
    ensures |r| <= |s| && r == s[|s| - |r|..] && AllSpace(s[..|s| - |r|])
    ensures |r| == 0 || !IsSpace(r[0])
    decreases |s|
  {
    if |s| > 0 && IsSpace(s[0]) then StripLeft(s[1..]) else s
  }

  /** `s.rstrip()`. */
  function StripRight(s: string): (r: string)
    ensures |r| <= |s| && r == s[..|r|] && AllSpace(s[|r|..])
    ensures |r| == 0 || !IsSpace(r[|r| - 1])
    ensures |s| > 0 && !IsSpace(s[0]) ==> |r| > 0 && r[0] == s[0]
    decreases |s|
  {
    if |s| > 0 && IsSpace(s[|s| - 1]) then StripRight(s[..|s| - 1]) else s
  }

  /** `s.strip()`: begins and ends with a non-space character (or is empty). */
  function Strip(s: string): (r: string)
    ensures |r| <= |s|
    ensures |r| == 0 || (!IsSpace(r[0]) && !IsSpace(r[|r| - 1]))
  {
    StripRight(StripLeft(s))
  }

  /** `r` sits in `s` at offset `i`, with only whitespace before and after it. */
  predicate SpaceAround(s: string, i: nat, r: string)
  {
    i + |r| <= |s| && r == s[i..i + |r|] && AllSpace(s[..i]) && AllSpace(s[i + |r|..])
  }

  /** `s.strip()` is the middle of `s`, between a run of leading whitespace and a run of trailing
      whitespace. */
  lemma StripIsMiddle(s: string)
    ensures SpaceAround(s, |s| - |StripLeft(s)|, Strip(s))
  {
    var l := StripLeft(s);
    var r := StripRight(l);
    MiddleOfSuffix(s, |s| - |l|, l, r);
    assert Strip(s) == r;
  }

  /** A prefix of a suffix of `s` is a middle slice of `s`. */
  lemma MiddleOfSuffix(s: string, i: nat, l: string, r: string)
    requires i <= |s| && l == s[i..] && AllSpace(s[..i])
    requires |r| <= |l| && r == l[..|r|] && AllSpace(l[|r|..])
    ensures SpaceAround(s, i, r)
  {
    assert s[i + |r|..] == l[|r|..];
  }

  /** A string is its own strip exactly when it does not begin or end with whitespace. */
  lemma StripFixed(s: string)
    ensures Strip(s) == s <==> (|s| == 0 || (!IsSpace(s[0]) && !IsSpace(s[|s| - 1])))
  {
    if |s| > 0 && !IsSpace(s[0]) && !IsSpace(s[|s| - 1]) {
      assert StripLeft(s) == s;
    }
  }

  // ----- `--include` / `--exclude` values -----

  /** `[p.strip() for p in value.split(",")] if value else []`: an absent or empty option value
      gives no patterns. */
  function ParsePatterns(value: Option<string>): (r: seq<string>)
    ensures |r| == 0 <==> value.None? || value.value == ""
    ensures value.Some? && value.value != "" ==>
      && |r| == |Split(value.value, ',')|
      && forall k :: 0 <= k < |r| ==> r[k] == Strip(Split(value.value, ',')[k])
    ensures forall k :: 0 <= k < |r| ==> ',' !in r[k] && Strip(r[k]) == r[k]
  {
    if value.None? || value.value == "" then []
    else
      var parts := Split(value.value, ',');
      var r := StripEach(parts);
      assert forall k :: 0 <= k < |r| ==> ',' !in r[k] && Strip(r[k]) == r[k] by {
        forall k | 0 <= k < |r|
          ensures ',' !in r[k] && Strip(r[k]) == r[k]
        {
          StripIsMiddle(parts[k]);
          assert forall c :: c in r[k] ==> c in parts[k];
          StripFixed(r[k]);
        }
      }
      r
  }

  /** `[p.strip() for p in parts]`. */
  function StripEach(parts: seq<string>): (r: seq<string>)
    ensures |r| == |parts|
  {
    seq(|parts|, k requires 0 <= k < |parts| => Strip(parts[k]))
  }

  /** Round trip: patterns free of commas and of leading and trailing whitespace, written
      comma-separated, read back as the same list (unless the written value is empty). */
  lemma PatternsRoundTrip(ps: seq<string>)
    requires |ps| >= 2 || (|ps| == 1 && ps[0] != "")
    requires forall k :: 0 <= k < |ps| ==>
      ',' !in ps[k] && (|ps[k]| == 0 || (!IsSpace(ps[k][0]) && !IsSpace(ps[k][|ps[k]| - 1])))
    ensures ParsePatterns(Some(Join(ps, ','))) == ps
  {
    JoinNotEmpty(ps, ',');
    SplitJoin(ps, ',');
    StripEachFixed(ps);
  }

  /** Joining one non-empty piece, or at least two pieces, gives a non-empty string. */
  lemma JoinNotEmpty(ps: seq<string>, sep: char)
    requires |ps| >= 2 || (|ps| == 1 && ps[0] != "")
    ensures Join(ps, sep) != ""
  {
    if |ps| >= 2 {
      assert Join(ps, sep) == ps[0] + [sep] + Join(ps[1..], sep);
    }
  }

  /** Stripping pieces that carry no edge whitespace changes nothing. */
  lemma StripEachFixed(ps: seq<string>)
    requires forall k :: 0 <= k < |ps| ==> |ps[k]| == 0 || (!IsSpace(ps[k][0]) && !IsSpace(ps[k][|ps[k]| - 1]))
    ensures StripEach(ps) == ps
  {
    forall k | 0 <= k < |ps|
      ensures StripEach(ps)[k] == ps[k]
    {
      StripFixed(ps[k]);
    }
  }

  // ----- The filter loop in `main` -----

  /** `any(fnmatch.fnmatch(stem, p) for p in pats)`. */
  predicate AnyMatch(stem: string, pats: seq<string>, matches: (string, string) -> bool)
    decreases |pats|
  {
    |pats| > 0 && (matches(stem, pats[0]) || AnyMatch(stem, pats[1..], matches))
  }

  /** `AnyMatch` holds exactly when some pattern matches. */
  lemma {:induction false} AnyMatchIff(stem: string, pats: seq<string>, matches: (string, string) -> bool)
    ensures AnyMatch(stem, pats, matches) <==> exists k :: 0 <= k < |pats| && matches(stem, pats[k])
    decreases |pats|
  {
    if |pats| > 0 {
      AnyMatchIff(stem, pats[1..], matches);
      if exists k :: 0 <= k < |pats| && matches(stem, pats[k]) {
        var k :| 0 <= k < |pats| && matches(stem, pats[k]);
        if k > 0 {
          assert pats[1..][k - 1] == pats[k];
        }
      }
      if AnyMatch(stem, pats[1..], matches) {
        var k :| 0 <= k < |pats[1..]| && matches(stem, pats[1..][k]);
        assert pats[k + 1] == pats[1..][k];
      }
    }
  }

  /** The two `continue` tests of the loop: a stem is skipped when there are include patterns and
      none matches, or when some exclude pattern matches. */
  predicate Keep(stem: string, includes: seq<string>, excludes: seq<string>, matches: (string, string) -> bool)
  {
    !(|includes| > 0 && !AnyMatch(stem, includes, matches)) && !(|excludes| > 0 && AnyMatch(stem, excludes, matches))
  }

  /** A stem is kept exactly when it matches some include pattern (or there are none) and matches
      no exclude pattern; so a stem matched by both lists is dropped. */
  lemma KeepIff(stem: string, includes: seq<string>, excludes: seq<string>, matches: (string, string) -> bool)
    ensures Keep(stem, includes, excludes, matches) <==>
      ((|includes| == 0 || exists k :: 0 <= k < |includes| && matches(stem, includes[k]))
       && !(exists k :: 0 <= k < |excludes| && matches(stem, excludes[k])))
  {
    AnyMatchIff(stem, includes, matches);
    AnyMatchIff(stem, excludes, matches);
  }

  /** The stems kept, in discovery order. */
  function Filter(stems: seq<string>, includes: seq<string>, excludes: seq<string>,
                  matches: (string, string) -> bool): (r: seq<string>)
    ensures |r| <= |stems|
    ensures forall s :: s in r ==> s in stems && Keep(s, includes, excludes, matches)
    decreases |stems|
  {
    if |stems| == 0 then []
    else (if Keep(stems[0], includes, excludes, matches) then [stems[0]] else []) + Filter(stems[1..], includes, excludes, matches)
  }

  /** Filtering a concatenation filters each part: survivors keep their relative order. */
  lemma {:induction false} FilterAppend(a: seq<string>, b: seq<string>, includes: seq<string>,
                                        excludes: seq<string>, matches: (string, string) -> bool)
    ensures Filter(a + b, includes, excludes, matches)
      == Filter(a, includes, excludes, matches) + Filter(b, includes, excludes, matches)
    decreases |a|
  {
    if |a| == 0 {
      assert a + b == b;
    } else {
      assert (a + b)[0] == a[0];
      assert (a + b)[1..] == a[1..] + b;
      FilterAppend(a[1..], b, includes, excludes, matches);
    }
  }

  /** Every discovered stem that passes the tests is kept. */
  lemma {:induction false} FilterKeepsAll(stems: seq<string>, includes: seq<string>, excludes: seq<string>,
                                          matches: (string, string) -> bool)
    ensures forall s :: s in Filter(stems, includes, excludes, matches) <==> s in stems && Keep(s, includes, excludes, matches)
    decreases |stems|
  {
    if |stems| > 0 {
      FilterKeepsAll(stems[1..], includes, excludes, matches);
      assert stems == [stems[0]] + stems[1..];
    }
  }

  /** Filtering twice is filtering once. */
  lemma {:induction false} FilterIdempotent(stems: seq<string>, includes: seq<string>, excludes: seq<string>,
                                            matches: (string, string) -> bool)
    ensures Filter(Filter(stems, includes, excludes, matches), includes, excludes, matches)
      == Filter(stems, includes, excludes, matches)
    decreases |stems|
  {
    if |stems| > 0 {
      var rest := Filter(stems[1..], includes, excludes, matches);
      FilterIdempotent(stems[1..], includes, excludes, matches);
      if Keep(stems[0], includes, excludes, matches) {
        assert Filter(stems, includes, excludes, matches) == [stems[0]] + rest;
        FilterAppend([stems[0]], rest, includes, excludes, matches);
        var one := [stems[0]];
        assert one[1..] == [];
        assert Filter(one, includes, excludes, matches) == one + Filter(one[1..], includes, excludes, matches);
      } else {
        assert Filter(stems, includes, excludes, matches) == rest;
      }
    }
  }

  /** With no patterns at all, every discovered stem is kept, in order. */
  lemma {:induction false} NoPatternsKeepsAll(stems: seq<string>, matches: (string, string) -> bool)
    ensures Filter(stems, [], [], matches) == stems
    decreases |stems|
  {
    if |stems| > 0 {
      NoPatternsKeepsAll(stems[1..], matches);
      assert stems == [stems[0]] + stems[1..];
    }
  }

  /** The loop of `main`: `filtered_series`, built by appending each stem that is not skipped. */
  method FilterSeries(stems: seq<string>, includes: seq<string>, excludes: seq<string>,
                      matches: (string, string) -> bool) returns (filtered: seq<string>)
    ensures filtered == Filter(stems, includes, excludes, matches)
    ensures forall s :: s in filtered <==> s in stems && Keep(s, includes, excludes, matches)
  {
    filtered := [];
    var i := 0;
    while i < |stems|
      invariant i <= |stems|
      invariant filtered == Filter(stems[..i], includes, excludes, matches)
    {
      var stem := stems[i];
      FilterAppend(stems[..i], [stem], includes, excludes, matches);
      assert stems[..i + 1] == stems[..i] + [stem];
      assert [stem][1..] == [];
      var skipped := false;
      if |includes| > 0 && !AnyMatch(stem, includes, matches) {
        skipped := true;
      } else if |excludes| > 0 && AnyMatch(stem, excludes, matches) {
        skipped := true;
      }
      if !skipped {
        filtered := filtered + [stem];
      }
      i := i + 1;
    }
    assert stems[..i] == stems;
    FilterKeepsAll(stems, includes, excludes, matches);
  }

  datatype FilterError = NoSeriesMatched

  /** `main` stops with an error when no stem survives the filter; otherwise the selected series
      are the filtered stems, in discovery order. */
  function SelectSeries(stems: seq<string>, includeArg: Option<string>, excludeArg: Option<string>,
                        matches: (string, string) -> bool): (r: Result<seq<string>, FilterError>)
    ensures r.Success? <==> |Filter(stems, ParsePatterns(includeArg), ParsePatterns(excludeArg), matches)| > 0
    ensures r.Success? ==> r.value == Filter(stems, ParsePatterns(includeArg), ParsePatterns(excludeArg), matches)
  {
    var kept := Filter(stems, ParsePatterns(includeArg), ParsePatterns(excludeArg), matches);
    if |kept| == 0 then Failure(NoSeriesMatched) else Success(kept)
  }

  /** Selection succeeds exactly when some discovered stem passes the include/exclude tests, and
      then selects exactly the discovered stems that pass. */
  lemma SelectedAreKept(stems: seq<string>, includeArg: Option<string>, excludeArg: Option<string>,
                        matches: (string, string) -> bool)
    ensures var r := SelectSeries(stems, includeArg, excludeArg, matches);
      && (r.Success? <==>
            exists k :: 0 <= k < |stems| && Keep(stems[k], ParsePatterns(includeArg), ParsePatterns(excludeArg), matches))
      && (r.Success? ==> forall s :: s in r.value <==>
            s in stems && Keep(s, ParsePatterns(includeArg), ParsePatterns(excludeArg), matches))
  {
    var kept := Filter(stems, ParsePatterns(includeArg), ParsePatterns(excludeArg), matches);
    FilterKeepsAll(stems, ParsePatterns(includeArg), ParsePatterns(excludeArg), matches);
    if |kept| > 0 {
      assert kept[0] in kept;
    }
  }

  /** Without `--include` or `--exclude`, every discovered stem is selected unless there are none. */
  lemma SelectWithoutOptions(stems: seq<string>, matches: (string, string) -> bool)
    ensures SelectSeries(stems, None, None, matches)
      == (if |stems| == 0 then Failure(NoSeriesMatched) else Success(stems))
  {
    NoPatternsKeepsAll(stems, matches);
  }
}
