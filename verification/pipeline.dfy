/** The per-series loop of `main`: for each selected tilt series, read the `.aln` table and the
    RELION projections, match their tilts, and rewrite the table; a series without a STAR file or
    without a tilt matching is skipped, and any exception ends the whole run. File contents arrive
    as values (`SeriesInput`, or the `read` parameter); float parsing and row formatting are the
    parameters `parseReal` and `formatRow`. The flag `fixed` chooses the rewrite: `false` is
    `write_updated_aln` as `main` calls it, `true` the corrected rewrite, which numbers rows the way
    the reader does. */
module Pipeline {
  import opened Results
  import opened AlnTable
  import opened Projections
  import opened TiltMatch
  import opened AlnRewrite
  import opened SeriesFilter

  /** What the loop reads for one series: whether the polish STAR file exists, the lines of the
      `.aln` file, and the STAR table's column labels and numeric rows. */
  datatype SeriesInput = SeriesInput(stem: string, hasStar: bool, alnLines: seq<string>,
                                     columns: seq<string>, table: seq<seq<real>>)

  /** Every row of the STAR table has one value per column, as in a data frame. */
  predicate Rectangular(input: SeriesInput)
  {
    forall i :: 0 <= i < |input.table| ==> |input.table[i]| == |input.columns|
  }

  /** How one series ends when nothing is raised. */
  datatype SeriesOutcome = NoStarFile | NoMatch | Updated(lines: seq<string>)

  /** Why the whole run stops. */
  datatype RunError =
    | NoSeriesSelected
    | AlnUnreadable(stem: string, parse: ParseError)
    | StarUnreadable(stem: string, column: ColumnError)
    | WriteFailed(stem: string, write: RewriteError)
    | NothingUpdated

  /** `[row.tilt for row in aln_rows]`. */
  function AlnTilts(rows: seq<AlignmentRow>): (t: seq<real>)
    ensures |t| == |rows| && forall k :: 0 <= k < |rows| ==> t[k] == rows[k].tilt
  {
    seq(|rows|, k requires 0 <= k < |rows| => rows[k].tilt)
  }

  /** `[row.ytilt for row in proj_rows]`. */
  function ProjTilts(projs: seq<ProjectionRow>): (t: seq<real>)
    ensures |t| == |projs| && forall k :: 0 <= k < |projs| ==> t[k] == projs[k].ytilt
  {
    seq(|projs|, k requires 0 <= k < |projs| => projs[k].ytilt)
  }

  /** The loop body once both files are read: match the tilts, skip the series when the dictionary
      is empty, otherwise rewrite the table (as written, or corrected when `fixed`). */
  function UpdateParsed(fixed: bool, lines: seq<string>, rows: seq<AlignmentRow>, projs: seq<ProjectionRow>,
                        st: ShiftSettings, formatRow: RowValues -> string): (r: Result<SeriesOutcome, RewriteError>)
    ensures r.Success? ==> !r.value.NoStarFile?
    ensures r.Success? && r.value.Updated? ==> |r.value.lines| == |lines|
  {
    var m := MatchSpec(AlnTilts(rows), ProjTilts(projs));
    if m == map[] then Success(NoMatch)
    else
      var written := if fixed then WriteUpdatedAlnFixed(lines, rows, projs, m, st, formatRow)
                     else WriteUpdatedAln(lines, rows, projs, m, st, formatRow);
      match written
      case Failure(e) => Failure(e)
      case Success(out) => Success(Updated(out))
  }

  /** One pass of the loop body: skip a series without STAR file, read both files (either read
      may raise), then match and rewrite. Every error names the series it was raised on. */
  function UpdateSeries(fixed: bool, input: SeriesInput, parseReal: string -> Option<real>, tiltSign: real,
                        st: ShiftSettings, formatRow: RowValues -> string): (r: Result<SeriesOutcome, RunError>)
    requires Rectangular(input)
    ensures !input.hasStar ==> r == Success(NoStarFile)
    ensures r.Success? && r.value.Updated? ==> |r.value.lines| == |input.alnLines|
    ensures r.Failure? ==>
      && (r.error.AlnUnreadable? || r.error.StarUnreadable? || r.error.WriteFailed?)
      && r.error.stem == input.stem
  {
    if !input.hasStar then Success(NoStarFile)
    else match ParseAln(input.alnLines, parseReal)
      case Failure(e) => Failure(AlnUnreadable(input.stem, e))
      case Success(rows) =>
        match ParseProjections(input.columns, input.table, tiltSign)
        case Failure(e) => Failure(StarUnreadable(input.stem, e))
        case Success(projs) =>
          match UpdateParsed(fixed, input.alnLines, rows, projs, st, formatRow)
          case Failure(e) => Failure(WriteFailed(input.stem, e))
          case Success(o) => Success(o)
  }

  /** A series whose `.aln` or STAR file cannot be read ends the run with that error, naming the
      series; the `.aln` file is read first. */
  lemma UpdateSeriesReadErrors(fixed: bool, input: SeriesInput, parseReal: string -> Option<real>, tiltSign: real,
                               st: ShiftSettings, formatRow: RowValues -> string)
    requires Rectangular(input) && input.hasStar
    ensures ParseAln(input.alnLines, parseReal).Failure? ==>
      UpdateSeries(fixed, input, parseReal, tiltSign, st, formatRow)
        == Failure(AlnUnreadable(input.stem, ParseAln(input.alnLines, parseReal).error))
    ensures ParseAln(input.alnLines, parseReal).Success? && ParseProjections(input.columns, input.table, tiltSign).Failure? ==>
      UpdateSeries(fixed, input, parseReal, tiltSign, st, formatRow)
        == Failure(StarUnreadable(input.stem, ParseProjections(input.columns, input.table, tiltSign).error))
  {
  }

  /** Once both files are read, the series ends as the matching and rewriting end; a rewrite error
      ends the run, naming the series. */
  lemma UpdateSeriesAfterReading(fixed: bool, input: SeriesInput, parseReal: string -> Option<real>, tiltSign: real,
                                 st: ShiftSettings, formatRow: RowValues -> string)
    requires Rectangular(input) && input.hasStar
    requires ParseAln(input.alnLines, parseReal).Success?
    requires ParseProjections(input.columns, input.table, tiltSign).Success?
    ensures var u := UpdateParsed(fixed, input.alnLines, ParseAln(input.alnLines, parseReal).value,
                                  ParseProjections(input.columns, input.table, tiltSign).value, st, formatRow);
      UpdateSeries(fixed, input, parseReal, tiltSign, st, formatRow)
        == if u.Success? then Success(u.value) else Failure(WriteFailed(input.stem, u.error))
  {
  }

  /** Once both files are read, the series is skipped exactly when there are no projections or
      more projections than rows. Otherwise, with the corrected rewrite or on a file without short
      data lines, it is updated exactly when the pixel size is not zero, and then every projection
      is used, header lines, short data lines and unmatched rows are copied, and each matched row
      line is replaced by its updated row. */
  lemma UpdateParsedOutcome(fixed: bool, lines: seq<string>, parseReal: string -> Option<real>,
                            projs: seq<ProjectionRow>, st: ShiftSettings, formatRow: RowValues -> string)
    requires ParseAln(lines, parseReal).Success?
    ensures var rows := ParseAln(lines, parseReal).value;
      var m := MatchSpec(AlnTilts(rows), ProjTilts(projs));
      var r := UpdateParsed(fixed, lines, rows, projs, st, formatRow);
      && (r == Success(NoMatch) <==> |projs| == 0 || |rows| < |projs|)
      && (0 < |projs| <= |rows| && (fixed || forall k :: 0 <= k < |lines| ==> !IsShortDataLine(lines[k])) ==>
            && (r.Success? <==> st.pixelSize != 0.0)
            && CoversProjections(ProjTilts(projs), m)
            && (r.Success? ==>
                  && r.value.Updated? && |r.value.lines| == |lines|
                  && (forall k :: 0 <= k < |lines| && !(IsRowLine(lines[k]) && RowCount(lines[..k]) in m) ==>
                        r.value.lines[k] == lines[k])
                  && (forall k :: 0 <= k < |lines| && IsRowLine(lines[k]) && RowCount(lines[..k]) in m ==>
                        && RowCount(lines[..k]) < |rows| && m[RowCount(lines[..k])] < |projs|
                        && r.value.lines[k]
                           == formatRow(UpdatedRow(rows[RowCount(lines[..k])], projs[m[RowCount(lines[..k])]], st)))))
  {
    var rows := ParseAln(lines, parseReal).value;
    var m := MatchSpec(AlnTilts(rows), ProjTilts(projs));
    MatchSpecProperties(AlnTilts(rows), ProjTilts(projs));
    if 0 < |projs| <= |rows| && (fixed || forall k :: 0 <= k < |lines| ==> !IsShortDataLine(lines[k])) {
      if !fixed {
        RewritesAgree(lines, rows, projs, m, st, formatRow, 0);
      }
      assert UpdateParsed(fixed, lines, rows, projs, st, formatRow) == UpdateParsed(true, lines, rows, projs, st, formatRow);
      var x :| x in m;
      RowNumbered(lines, x);
      FixedRewriteSucceeds(lines, parseReal, projs, m, st, formatRow);
      if st.pixelSize != 0.0 {
        FixedRewriteOutput(lines, parseReal, projs, m, st, formatRow);
      }
    }
  }

  /** As written, a series whose `.aln` file holds a data line with fewer than ten fields and
      which has a tilt matching ends the run: the rewrite raises, and with a non-zero pixel size it
      is `aln_rows[row_index]` that raises `IndexError`. The corrected rewrite updates the same
      series whenever the pixel size is not zero. */
  lemma UpdateSeriesShortLineFails(input: SeriesInput, parseReal: string -> Option<real>, tiltSign: real,
                                   st: ShiftSettings, formatRow: RowValues -> string)
    requires Rectangular(input) && input.hasStar
    requires ParseAln(input.alnLines, parseReal).Success?
    requires ParseProjections(input.columns, input.table, tiltSign).Success?
    requires 0 < |ParseProjections(input.columns, input.table, tiltSign).value|
                 <= |ParseAln(input.alnLines, parseReal).value|
    requires exists k :: 0 <= k < |input.alnLines| && IsShortDataLine(input.alnLines[k])
    ensures var r := UpdateSeries(false, input, parseReal, tiltSign, st, formatRow);
      && r.Failure? && r.error.WriteFailed? && r.error.stem == input.stem
      && (st.pixelSize != 0.0 ==> r.error.write.RowIndexOutOfRange?)
    ensures st.pixelSize != 0.0 ==> UpdateSeries(true, input, parseReal, tiltSign, st, formatRow).Success?
  {
    var lines := input.alnLines;
    var rows := ParseAln(lines, parseReal).value;
    var projs := ParseProjections(input.columns, input.table, tiltSign).value;
    var m := MatchSpec(AlnTilts(rows), ProjTilts(projs));
    MatchSpecProperties(AlnTilts(rows), ProjTilts(projs));
    AsWrittenFailsOnShortLine(lines, parseReal, projs, m, st, formatRow);
    if st.pixelSize != 0.0 {
      RewriteErrorIsRowIndex(false, lines, rows, projs, m, st, formatRow, 0);
    }
    UpdateSeriesAfterReading(false, input, parseReal, tiltSign, st, formatRow);
    UpdateSeriesAfterReading(true, input, parseReal, tiltSign, st, formatRow);
    UpdateParsedOutcome(true, lines, parseReal, projs, st, formatRow);
  }

  /** The loop over the selected series, given each one's outcome in order: the stems updated,
      with their new `.aln` lines, in order; the first error ends the run. */
  function UpdateAll(stems: seq<string>, outcomes: seq<Result<SeriesOutcome, RunError>>)
    : (r: Result<seq<(string, seq<string>)>, RunError>)
    requires |stems| == |outcomes|
    ensures r.Success? ==> |r.value| <= |stems|
    decreases |stems|
  {
    if |stems| == 0 then Success([])
    else match outcomes[0]
      case Failure(e) => Failure(e)
      case Success(o) =>
        match UpdateAll(stems[1..], outcomes[1..])
        case Failure(e) => Failure(e)
        case Success(rest) => Success((if o.Updated? then [(stems[0], o.lines)] else []) + rest)
  }

  /** The loop gets through exactly when no series raises, and then it reports exactly the series
      whose outcome is an update, each with the lines written for it. */
  lemma {:induction false} UpdateAllIff(stems: seq<string>, outcomes: seq<Result<SeriesOutcome, RunError>>)
    requires |stems| == |outcomes|
    ensures var r := UpdateAll(stems, outcomes);
      && (r.Success? <==> forall i :: 0 <= i < |outcomes| ==> outcomes[i].Success?)
      && (r.Success? ==> forall stem, out :: (stem, out) in r.value <==>
            exists i :: 0 <= i < |stems| && stems[i] == stem && outcomes[i] == Success(Updated(out)))
    decreases |stems|
  {
    if |stems| > 0 {
      var tail := stems[1..];
      var tailOut := outcomes[1..];
      UpdateAllIff(tail, tailOut);
      assert forall i :: 1 <= i < |outcomes| ==> outcomes[i] == tailOut[i - 1];
      var r := UpdateAll(stems, outcomes);
      if r.Success? {
        var o := outcomes[0].value;
        var rest := UpdateAll(tail, tailOut).value;
        assert r.value == (if o.Updated? then [(stems[0], o.lines)] else []) + rest;
        forall stem, out | (stem, out) in r.value
          ensures exists i :: 0 <= i < |stems| && stems[i] == stem && outcomes[i] == Success(Updated(out))
        {
          if !(o.Updated? && (stem, out) == (stems[0], o.lines)) {
            assert (stem, out) in rest;
            var i :| 0 <= i < |tail| && tail[i] == stem && tailOut[i] == Success(Updated(out));
            assert stems[i + 1] == tail[i];
          }
        }
        forall stem, out | exists i :: 0 <= i < |stems| && stems[i] == stem && outcomes[i] == Success(Updated(out))
          ensures (stem, out) in r.value
        {
          var i :| 0 <= i < |stems| && stems[i] == stem && outcomes[i] == Success(Updated(out));
          if i > 0 {
            assert tail[i - 1] == stems[i];
          }
        }
      } else if outcomes[0].Success? {
        var i :| 0 <= i < |tailOut| && !tailOut[i].Success?;
        assert outcomes[i + 1] == tailOut[i];
      }
    }
  }

  /** When the loop stops, it stops with the error of the first series that raised. */
  lemma {:induction false} UpdateAllFirstError(stems: seq<string>, outcomes: seq<Result<SeriesOutcome, RunError>>)
    requires |stems| == |outcomes|
    requires UpdateAll(stems, outcomes).Failure?
    ensures exists i :: (0 <= i < |outcomes| && outcomes[i] == Failure(UpdateAll(stems, outcomes).error)
      && forall j :: 0 <= j < i ==> outcomes[j].Success?)
    decreases |stems|
  {
    var e := UpdateAll(stems, outcomes).error;
    if outcomes[0].Failure? {
      assert outcomes[0] == Failure(e);
    } else {
      UpdateAllFirstError(stems[1..], outcomes[1..]);
      var i :| 0 <= i < |outcomes[1..]| && outcomes[1..][i] == Failure(e)
        && forall j :: 0 <= j < i ==> outcomes[1..][j].Success?;
      assert outcomes[i + 1] == outcomes[1..][i];
      assert forall j :: 1 <= j < i + 1 ==> outcomes[j] == outcomes[1..][j - 1];
    }
  }

  /** The outcome of each selected series, in order. */
  function Outcomes(fixed: bool, selected: seq<string>, read: string -> SeriesInput,
                    parseReal: string -> Option<real>, tiltSign: real, st: ShiftSettings,
                    formatRow: RowValues -> string)
    : (r: seq<Result<SeriesOutcome, RunError>>)
    requires forall s :: Rectangular(read(s))
    ensures |r| == |selected|
    ensures forall k :: 0 <= k < |selected| ==>
      r[k] == UpdateSeries(fixed, read(selected[k]), parseReal, tiltSign, st, formatRow)
  {
    seq(|selected|, k requires 0 <= k < |selected| =>
      UpdateSeries(fixed, read(selected[k]), parseReal, tiltSign, st, formatRow))
  }

  /** `main` from the discovered stems on: select with `--include` / `--exclude`, update each
      selected series (its files read by `read`), and stop with an error when nothing was updated. */
  function Run(fixed: bool, stems: seq<string>, includeArg: Option<string>, excludeArg: Option<string>,
               glob: (string, string) -> bool, read: string -> SeriesInput,
               parseReal: string -> Option<real>, tiltSign: real, st: ShiftSettings,
               formatRow: RowValues -> string): (r: Result<seq<(string, seq<string>)>, RunError>)
    requires forall s :: Rectangular(read(s))
    ensures r.Success? ==> 0 < |r.value| <= |stems|
  {
    match SelectSeries(stems, includeArg, excludeArg, glob)
    case Failure(_) => Failure(NoSeriesSelected)
    case Success(selected) =>
      match UpdateAll(selected, Outcomes(fixed, selected, read, parseReal, tiltSign, st, formatRow))
      case Failure(e) => Failure(e)
      case Success(updated) => if |updated| == 0 then Failure(NothingUpdated) else Success(updated)
  }

  /** The run in terms of the filtered stems: no stem kept, the first exception, nothing updated,
      or the updated series. */
  lemma RunOnSelected(fixed: bool, stems: seq<string>, includeArg: Option<string>, excludeArg: Option<string>,
                      glob: (string, string) -> bool, read: string -> SeriesInput,
                      parseReal: string -> Option<real>, tiltSign: real, st: ShiftSettings,
                      formatRow: RowValues -> string)
    requires forall s :: Rectangular(read(s))
    ensures var selected := Filter(stems, ParsePatterns(includeArg), ParsePatterns(excludeArg), glob);
      var all := UpdateAll(selected, Outcomes(fixed, selected, read, parseReal, tiltSign, st, formatRow));
      Run(fixed, stems, includeArg, excludeArg, glob, read, parseReal, tiltSign, st, formatRow)
        == if |selected| == 0 then Failure(NoSeriesSelected)
           else if all.Failure? then Failure(all.error)
           else if |all.value| == 0 then Failure(NothingUpdated)
           else Success(all.value)
  {
  }

  /** A successful run reports exactly the series that were discovered, passed the include/exclude
      tests, and were updated from their own files, each with the lines written for it. */
  lemma RunReportsSelected(fixed: bool, stems: seq<string>, includeArg: Option<string>, excludeArg: Option<string>,
                           glob: (string, string) -> bool, read: string -> SeriesInput,
                           parseReal: string -> Option<real>, tiltSign: real, st: ShiftSettings,
                           formatRow: RowValues -> string)
    requires forall s :: Rectangular(read(s))
    ensures var r := Run(fixed, stems, includeArg, excludeArg, glob, read, parseReal, tiltSign, st, formatRow);
      r.Success? ==> forall stem, out :: (stem, out) in r.value <==>
        && stem in stems && Keep(stem, ParsePatterns(includeArg), ParsePatterns(excludeArg), glob)
        && UpdateSeries(fixed, read(stem), parseReal, tiltSign, st, formatRow) == Success(Updated(out))
  {
    var r := Run(fixed, stems, includeArg, excludeArg, glob, read, parseReal, tiltSign, st, formatRow);
    if r.Success? {
      var includes, excludes := ParsePatterns(includeArg), ParsePatterns(excludeArg);
      var selected := Filter(stems, includes, excludes, glob);
      var outcomes := Outcomes(fixed, selected, read, parseReal, tiltSign, st, formatRow);
      RunOnSelected(fixed, stems, includeArg, excludeArg, glob, read, parseReal, tiltSign, st, formatRow);
      assert r.value == UpdateAll(selected, outcomes).value;
      UpdateAllIff(selected, outcomes);
      FilterKeepsAll(stems, includes, excludes, glob);
      ReportedWereSelected(fixed, stems, includes, excludes, glob, read, parseReal, tiltSign, st, formatRow);
      SelectedAreReported(fixed, stems, includes, excludes, glob, read, parseReal, tiltSign, st, formatRow);
    }
  }

  /** Each series the loop over the filtered stems reports was kept and updated. */
  lemma ReportedWereSelected(fixed: bool, stems: seq<string>, includes: seq<string>, excludes: seq<string>,
                             glob: (string, string) -> bool, read: string -> SeriesInput,
                             parseReal: string -> Option<real>, tiltSign: real, st: ShiftSettings,
                             formatRow: RowValues -> string)
    requires forall s :: Rectangular(read(s))
    ensures var selected := Filter(stems, includes, excludes, glob);
      var all := UpdateAll(selected, Outcomes(fixed, selected, read, parseReal, tiltSign, st, formatRow));
      all.Success? ==> forall stem, out :: (stem, out) in all.value ==>
        && stem in stems && Keep(stem, includes, excludes, glob)
        && UpdateSeries(fixed, read(stem), parseReal, tiltSign, st, formatRow) == Success(Updated(out))
  {
    var selected := Filter(stems, includes, excludes, glob);
    var outcomes := Outcomes(fixed, selected, read, parseReal, tiltSign, st, formatRow);
    var all := UpdateAll(selected, outcomes);
    if all.Success? {
      UpdateAllIff(selected, outcomes);
      FilterKeepsAll(stems, includes, excludes, glob);
      forall stem, out | (stem, out) in all.value
        ensures && stem in stems && Keep(stem, includes, excludes, glob)
          && UpdateSeries(fixed, read(stem), parseReal, tiltSign, st, formatRow) == Success(Updated(out))
      {
        var i :| 0 <= i < |selected| && selected[i] == stem && outcomes[i] == Success(Updated(out));
        assert selected[i] in selected;
      }
    }
  }

  /** Each kept series that updates is reported by a loop over the filtered stems that gets
      through. */
  lemma SelectedAreReported(fixed: bool, stems: seq<string>, includes: seq<string>, excludes: seq<string>,
                            glob: (string, string) -> bool, read: string -> SeriesInput,
                            parseReal: string -> Option<real>, tiltSign: real, st: ShiftSettings,
                            formatRow: RowValues -> string)
    requires forall s :: Rectangular(read(s))
    ensures var selected := Filter(stems, includes, excludes, glob);
      var all := UpdateAll(selected, Outcomes(fixed, selected, read, parseReal, tiltSign, st, formatRow));
      all.Success? ==> forall stem, out ::
        && stem in stems && Keep(stem, includes, excludes, glob)
        && UpdateSeries(fixed, read(stem), parseReal, tiltSign, st, formatRow) == Success(Updated(out))
        ==> (stem, out) in all.value
  {
    var selected := Filter(stems, includes, excludes, glob);
    var outcomes := Outcomes(fixed, selected, read, parseReal, tiltSign, st, formatRow);
    var all := UpdateAll(selected, outcomes);
    if all.Success? {
      UpdateAllIff(selected, outcomes);
      FilterKeepsAll(stems, includes, excludes, glob);
      forall stem, out | && stem in stems && Keep(stem, includes, excludes, glob)
          && UpdateSeries(fixed, read(stem), parseReal, tiltSign, st, formatRow) == Success(Updated(out))
        ensures (stem, out) in all.value
      {
        var i :| 0 <= i < |selected| && selected[i] == stem;
        assert outcomes[i] == Success(Updated(out));
      }
    }
  }

  /** The run stops for want of a selected series exactly when no discovered stem passes the
      filter. */
  lemma RunSelectsNothing(fixed: bool, stems: seq<string>, includeArg: Option<string>, excludeArg: Option<string>,
                          glob: (string, string) -> bool, read: string -> SeriesInput,
                          parseReal: string -> Option<real>, tiltSign: real, st: ShiftSettings,
                          formatRow: RowValues -> string)
    requires forall s :: Rectangular(read(s))
    ensures Run(fixed, stems, includeArg, excludeArg, glob, read, parseReal, tiltSign, st, formatRow)
        == Failure(NoSeriesSelected)
      <==> forall k :: 0 <= k < |stems| ==> !Keep(stems[k], ParsePatterns(includeArg), ParsePatterns(excludeArg), glob)
  {
    var sel := SelectSeries(stems, includeArg, excludeArg, glob);
    SelectedAreKept(stems, includeArg, excludeArg, glob);
    if sel.Success? {
      LoopErrorIsSeriesError(fixed, sel.value, read, parseReal, tiltSign, st, formatRow);
    }
  }

  /** The loop over series fails only with an exception raised by one of them, never for want of
      a series. */
  lemma LoopErrorIsSeriesError(fixed: bool, selected: seq<string>, read: string -> SeriesInput,
                               parseReal: string -> Option<real>, tiltSign: real, st: ShiftSettings,
                               formatRow: RowValues -> string)
    requires forall s :: Rectangular(read(s))
    ensures var all := UpdateAll(selected, Outcomes(fixed, selected, read, parseReal, tiltSign, st, formatRow));
      all.Failure? ==> all.error.AlnUnreadable? || all.error.StarUnreadable? || all.error.WriteFailed?
  {
    var outcomes := Outcomes(fixed, selected, read, parseReal, tiltSign, st, formatRow);
    if UpdateAll(selected, outcomes).Failure? {
      UpdateAllFirstError(selected, outcomes);
    }
  }

  /** A run stopped by an exception reports the error of the first selected series that raised;
      every series selected before it was handled without one. */
  lemma RunFirstError(fixed: bool, stems: seq<string>, includeArg: Option<string>, excludeArg: Option<string>,
                      glob: (string, string) -> bool, read: string -> SeriesInput,
                      parseReal: string -> Option<real>, tiltSign: real, st: ShiftSettings,
                      formatRow: RowValues -> string)
    requires forall s :: Rectangular(read(s))
    ensures var r := Run(fixed, stems, includeArg, excludeArg, glob, read, parseReal, tiltSign, st, formatRow);
      r.Failure? && r.error != NoSeriesSelected && r.error != NothingUpdated ==>
        var selected := Filter(stems, ParsePatterns(includeArg), ParsePatterns(excludeArg), glob);
        exists i :: (0 <= i < |selected|
          && UpdateSeries(fixed, read(selected[i]), parseReal, tiltSign, st, formatRow) == Failure(r.error)
          && forall j :: 0 <= j < i ==> UpdateSeries(fixed, read(selected[j]), parseReal, tiltSign, st, formatRow).Success?)
  {
    RunOnSelected(fixed, stems, includeArg, excludeArg, glob, read, parseReal, tiltSign, st, formatRow);
    var selected := Filter(stems, ParsePatterns(includeArg), ParsePatterns(excludeArg), glob);
    LoopFirstError(fixed, selected, read, parseReal, tiltSign, st, formatRow);
  }

  /** A loop over series that stops reports the first series' own exception. */
  lemma LoopFirstError(fixed: bool, selected: seq<string>, read: string -> SeriesInput,
                       parseReal: string -> Option<real>, tiltSign: real, st: ShiftSettings,
                       formatRow: RowValues -> string)
    requires forall s :: Rectangular(read(s))
    ensures var all := UpdateAll(selected, Outcomes(fixed, selected, read, parseReal, tiltSign, st, formatRow));
      all.Failure? ==> exists i :: (0 <= i < |selected|
        && UpdateSeries(fixed, read(selected[i]), parseReal, tiltSign, st, formatRow) == Failure(all.error)
        && forall j :: 0 <= j < i ==> UpdateSeries(fixed, read(selected[j]), parseReal, tiltSign, st, formatRow).Success?)
  {
    var outcomes := Outcomes(fixed, selected, read, parseReal, tiltSign, st, formatRow);
    if UpdateAll(selected, outcomes).Failure? {
      UpdateAllFirstError(selected, outcomes);
    }
  }
}
