/** `write_updated_aln`: rewrites an `.aln` file line by line, replacing the matched tilt rows with
    the polished rotation, tilt and shifts, and passing everything else through. The numbered
    `row_index` walks the parsed rows in step with the lines it counts as data rows. */
module AlnRewrite {
  import opened Results
  import opened AlnText
  import opened AlnTable
  import opened Projections

  /** The numeric settings the rewrite takes; `binning` is accepted and never read. */
  datatype ShiftSettings = ShiftSettings(pixelSize: real, binning: int, xShiftSign: real, yShiftSign: real)

  /** The ten values of an output row, in column order, as handed to the row formatter. */
  datatype RowValues = RowValues(
    sec: int,
    rot: real,
    gmag: real,
    tx: real,
    ty: real,
    smean: real,
    sfit: real,
    scale: real,
    base: real,
    tilt: real)

  /** What aborts the rewrite: `aln_rows[row_index]` or `proj_rows[...]` raising `IndexError`,
      or the shift division raising `ZeroDivisionError`. */
  datatype RewriteError =
    | RowIndexOutOfRange(rowIndex: nat)
    | ProjectionIndexOutOfRange(rowIndex: nat, projIndex: nat)
    | ZeroPixelSize

  /** The values an alignment row already holds. */
  function ValuesOf(row: AlignmentRow): RowValues
  {
    RowValues(row.sec, row.rot, row.gmag, row.tx, row.ty, row.smean, row.sfit, row.scale, row.base, row.tilt)
  }

  /** A matched row: the polished rotation and tilt, the polished shifts converted from Ångström
      to unbinned pixels with the configured signs, and every other column of the original row. */
  function UpdatedRow(row: AlignmentRow, proj: ProjectionRow, st: ShiftSettings): (r: RowValues)
    requires st.pixelSize != 0.0
    ensures r.sec == row.sec && r.gmag == row.gmag && r.smean == row.smean
    ensures r.sfit == row.sfit && r.scale == row.scale && r.base == row.base
    ensures r.rot == proj.zrot && r.tilt == proj.ytilt
    ensures r.tx * st.pixelSize == proj.dxAng * st.xShiftSign
    ensures r.ty * st.pixelSize == proj.dyAng * st.yShiftSign
  {
    RowValues(row.sec, proj.zrot, row.gmag,
              (proj.dxAng * st.xShiftSign) / st.pixelSize, (proj.dyAng * st.yShiftSign) / st.pixelSize,
              row.smean, row.sfit, row.scale, row.base, proj.ytilt)
  }

  /** With a sign of plus or minus one, the written pixel shift converts back to the polished
      shift in Ångström. */
  lemma ShiftRoundTrip(row: AlignmentRow, proj: ProjectionRow, st: ShiftSettings)
    requires st.pixelSize != 0.0
    requires st.xShiftSign * st.xShiftSign == 1.0 && st.yShiftSign * st.yShiftSign == 1.0
    ensures UpdatedRow(row, proj, st).tx * st.pixelSize * st.xShiftSign == proj.dxAng
    ensures UpdatedRow(row, proj, st).ty * st.pixelSize * st.yShiftSign == proj.dyAng
  {
    var r := UpdatedRow(row, proj, st);
    calc {
      r.tx * st.pixelSize * st.xShiftSign;
      (proj.dxAng * st.xShiftSign) * st.xShiftSign;
      proj.dxAng * (st.xShiftSign * st.xShiftSign);
    }
    calc {
      r.ty * st.pixelSize * st.yShiftSign;
      (proj.dyAng * st.yShiftSign) * st.yShiftSign;
      proj.dyAng * (st.yShiftSign * st.yShiftSign);
    }
  }

  /** Rewriting a row with the values it already holds leaves its values unchanged. */
  lemma UpdateWithOwnValues(row: AlignmentRow, proj: ProjectionRow, st: ShiftSettings)
    requires st.pixelSize != 0.0
    requires proj.zrot == row.rot && proj.ytilt == row.tilt
    requires proj.dxAng * st.xShiftSign == row.tx * st.pixelSize
    requires proj.dyAng * st.yShiftSign == row.ty * st.pixelSize
    ensures UpdatedRow(row, proj, st) == ValuesOf(row)
  {
    var r := UpdatedRow(row, proj, st);
    assert r.tx * st.pixelSize == row.tx * st.pixelSize;
    assert r.ty * st.pixelSize == row.ty * st.pixelSize;
  }

  /** The line written for parsed row number `q`: its original line when `q` is unmatched, else
      the formatted update. */
  function RowOutput(row: AlignmentRow, q: nat, projs: seq<ProjectionRow>, matches: map<nat, nat>,
                     st: ShiftSettings, formatRow: RowValues -> string): (r: Result<string, RewriteError>)
    ensures q !in matches ==> r == Success(row.rawLine)
    ensures q in matches && matches[q] >= |projs| ==> r == Failure(ProjectionIndexOutOfRange(q, matches[q]))
    ensures q in matches && matches[q] < |projs| && st.pixelSize == 0.0 ==> r == Failure(ZeroPixelSize)
    ensures q in matches && matches[q] < |projs| && st.pixelSize != 0.0 ==>
      r == Success(formatRow(UpdatedRow(row, projs[matches[q]], st)))
  {
    if q !in matches then Success(row.rawLine)
    else if matches[q] >= |projs| then Failure(ProjectionIndexOutOfRange(q, matches[q]))
    else if st.pixelSize == 0.0 then Failure(ZeroPixelSize)
    else Success(formatRow(UpdatedRow(row, projs[matches[q]], st)))
  }

  /** The lines that advance `row_index`: every data-pattern line as written (`fixed == false`),
      only the lines the reader turned into rows in the corrected rewrite (`fixed == true`). */
  predicate IsCounted(fixed: bool, line: string)
  {
    if fixed then IsRowLine(line) else IsDataLine(line)
  }

  /** How many lines of `lines` advance `row_index`. */
  function CountOf(fixed: bool, lines: seq<string>): (n: nat)
    ensures n <= |lines|
  {
    if |lines| == 0 then 0
    else (if IsCounted(fixed, lines[0]) then 1 else 0) + CountOf(fixed, lines[1..])
  }

  /** The row index after `line`: one further when the line is counted. */
  function Next(fixed: bool, line: string, q: nat): nat
  {
    if IsCounted(fixed, line) then q + 1 else q
  }

  /** What one line of the loop writes when `row_index == q`: an uncounted line is copied, a
      counted one reads parsed row `q` (which must exist) and writes that row's output. */
  function LineOutput(fixed: bool, line: string, rows: seq<AlignmentRow>, projs: seq<ProjectionRow>,
                      matches: map<nat, nat>, st: ShiftSettings, formatRow: RowValues -> string, q: nat)
    : (r: Result<string, RewriteError>)
    ensures !IsCounted(fixed, line) ==> r == Success(line)
    ensures IsCounted(fixed, line) && q >= |rows| ==> r == Failure(RowIndexOutOfRange(q))
    ensures IsCounted(fixed, line) && q < |rows| ==> r == RowOutput(rows[q], q, projs, matches, st, formatRow)
  {
    if !IsCounted(fixed, line) then Success(line)
    else if q >= |rows| then Failure(RowIndexOutOfRange(q))
    else RowOutput(rows[q], q, projs, matches, st, formatRow)
  }

  /** The rewrite loop from `row_index == start`: each line's output in turn; the first error
      aborts. */
  function Rewrite(fixed: bool, lines: seq<string>, rows: seq<AlignmentRow>, projs: seq<ProjectionRow>,
                   matches: map<nat, nat>, st: ShiftSettings, formatRow: RowValues -> string, start: nat)
    : (r: Result<seq<string>, RewriteError>)
    ensures r.Success? ==> |r.value| == |lines|
    decreases |lines|
  {
    if |lines| == 0 then Success([])
    else
      var here := LineOutput(fixed, lines[0], rows, projs, matches, st, formatRow, start);
      if here.Failure? then Failure(here.error)
      else
        var rest := Rewrite(fixed, lines[1..], rows, projs, matches, st, formatRow, Next(fixed, lines[0], start));
        if rest.Failure? then Failure(rest.error)
        else Success([here.value] + rest.value)
  }

  /** `write_updated_aln` as written: `row_index` advances on every data-pattern line. */
  function WriteUpdatedAln(lines: seq<string>, rows: seq<AlignmentRow>, projs: seq<ProjectionRow>,
                           matches: map<nat, nat>, st: ShiftSettings, formatRow: RowValues -> string)
    : (r: Result<seq<string>, RewriteError>)
    ensures r.Success? ==> |r.value| == |lines|
  {
    Rewrite(false, lines, rows, projs, matches, st, formatRow, 0)
  }

  /** The corrected rewrite: `row_index` advances only on the lines the reader made rows of, so a
      short data line is passed through like a header line. */
  function WriteUpdatedAlnFixed(lines: seq<string>, rows: seq<AlignmentRow>, projs: seq<ProjectionRow>,
                                matches: map<nat, nat>, st: ShiftSettings, formatRow: RowValues -> string)
    : (r: Result<seq<string>, RewriteError>)
    ensures r.Success? ==> |r.value| == |lines|
  {
    Rewrite(true, lines, rows, projs, matches, st, formatRow, 0)
  }

  /** Counting a prefix of length `k >= 1` counts its first line, then the rest of the prefix. */
  lemma PrefixCount(fixed: bool, lines: seq<string>, k: nat)
    requires 1 <= k <= |lines|
    ensures CountOf(fixed, lines[..k])
      == (if IsCounted(fixed, lines[0]) then 1 else 0) + CountOf(fixed, lines[1..][..k - 1])
  {
    assert lines[..k][0] == lines[0];
    assert lines[..k][1..] == lines[1..][..k - 1];
  }

  /** The row index line `k` of the loop sees: `start` plus the counted lines before it. */
  function IndexAt(fixed: bool, lines: seq<string>, start: nat, k: nat): nat
    requires k <= |lines|
  {
    start + CountOf(fixed, lines[..k])
  }

  /** What line `k` of the rewrite writes, or why it aborts. */
  function OutputAt(fixed: bool, lines: seq<string>, rows: seq<AlignmentRow>, projs: seq<ProjectionRow>,
                    matches: map<nat, nat>, st: ShiftSettings, formatRow: RowValues -> string,
                    start: nat, k: nat): Result<string, RewriteError>
    requires k < |lines|
  {
    LineOutput(fixed, lines[k], rows, projs, matches, st, formatRow, IndexAt(fixed, lines, start, k))
  }

  /** Shifting the window by the first line: line `k+1` from `start` is line `k` of the tail from
      the next row index. */
  lemma OutputAtTail(fixed: bool, lines: seq<string>, rows: seq<AlignmentRow>, projs: seq<ProjectionRow>,
                     matches: map<nat, nat>, st: ShiftSettings, formatRow: RowValues -> string,
                     start: nat, k: nat)
    requires 1 <= k < |lines|
    ensures OutputAt(fixed, lines, rows, projs, matches, st, formatRow, start, k)
      == OutputAt(fixed, lines[1..], rows, projs, matches, st, formatRow, Next(fixed, lines[0], start), k - 1)
  {
    PrefixCount(fixed, lines, k);
    assert lines[1..][k - 1] == lines[k];
  }

  /** A line whose output fails makes the whole rewrite fail. */
  lemma {:induction false} FailingLineFails(fixed: bool, lines: seq<string>, rows: seq<AlignmentRow>,
                                            projs: seq<ProjectionRow>, matches: map<nat, nat>,
                                            st: ShiftSettings, formatRow: RowValues -> string,
                                            start: nat, k: nat)
    requires k < |lines| && OutputAt(fixed, lines, rows, projs, matches, st, formatRow, start, k).Failure?
    ensures Rewrite(fixed, lines, rows, projs, matches, st, formatRow, start).Failure?
    decreases k
  {
    if k == 0 {
      assert lines[..0] == [];
    } else {
      OutputAtTail(fixed, lines, rows, projs, matches, st, formatRow, start, k);
      FailingLineFails(fixed, lines[1..], rows, projs, matches, st, formatRow, Next(fixed, lines[0], start), k - 1);
    }
  }

  /** When every line's output succeeds, so does the rewrite. */
  lemma {:induction false} AllLinesSucceed(fixed: bool, lines: seq<string>, rows: seq<AlignmentRow>,
                                           projs: seq<ProjectionRow>, matches: map<nat, nat>,
                                           st: ShiftSettings, formatRow: RowValues -> string, start: nat)
    requires forall k :: 0 <= k < |lines| ==>
      OutputAt(fixed, lines, rows, projs, matches, st, formatRow, start, k).Success?
    ensures Rewrite(fixed, lines, rows, projs, matches, st, formatRow, start).Success?
    decreases |lines|
  {
    if |lines| > 0 {
      var next := Next(fixed, lines[0], start);
      forall k | 0 <= k < |lines| - 1
        ensures OutputAt(fixed, lines[1..], rows, projs, matches, st, formatRow, next, k).Success?
      {
        OutputAtTail(fixed, lines, rows, projs, matches, st, formatRow, start, k + 1);
      }
      AllLinesSucceed(fixed, lines[1..], rows, projs, matches, st, formatRow, next);
      assert lines[..0] == [];
      assert OutputAt(fixed, lines, rows, projs, matches, st, formatRow, start, 0).Success?;
    }
  }

  /** The rewrite succeeds exactly when every line's output succeeds. */
  lemma RewriteSucceeds(fixed: bool, lines: seq<string>, rows: seq<AlignmentRow>,
                        projs: seq<ProjectionRow>, matches: map<nat, nat>,
                        st: ShiftSettings, formatRow: RowValues -> string, start: nat)
    ensures Rewrite(fixed, lines, rows, projs, matches, st, formatRow, start).Success?
      <==> forall k :: 0 <= k < |lines| ==>
             OutputAt(fixed, lines, rows, projs, matches, st, formatRow, start, k).Success?
  {
    if Rewrite(fixed, lines, rows, projs, matches, st, formatRow, start).Success? {
      forall k | 0 <= k < |lines|
        ensures OutputAt(fixed, lines, rows, projs, matches, st, formatRow, start, k).Success?
      {
        if OutputAt(fixed, lines, rows, projs, matches, st, formatRow, start, k).Failure? {
          FailingLineFails(fixed, lines, rows, projs, matches, st, formatRow, start, k);
        }
      }
    } else if forall k :: 0 <= k < |lines| ==>
        OutputAt(fixed, lines, rows, projs, matches, st, formatRow, start, k).Success? {
      AllLinesSucceed(fixed, lines, rows, projs, matches, st, formatRow, start);
    }
  }

  /** Line by line, a successful rewrite writes each line's output in its place: uncounted lines
      copied, counted lines replaced by their row's output. */
  lemma {:induction false} RewriteOutput(fixed: bool, lines: seq<string>, rows: seq<AlignmentRow>,
                                         projs: seq<ProjectionRow>, matches: map<nat, nat>,
                                         st: ShiftSettings, formatRow: RowValues -> string, start: nat)
    requires Rewrite(fixed, lines, rows, projs, matches, st, formatRow, start).Success?
    ensures var out := Rewrite(fixed, lines, rows, projs, matches, st, formatRow, start).value;
      forall k :: 0 <= k < |lines| ==>
        OutputAt(fixed, lines, rows, projs, matches, st, formatRow, start, k) == Success(out[k])
    decreases |lines|
  {
    if |lines| > 0 {
      var out := Rewrite(fixed, lines, rows, projs, matches, st, formatRow, start).value;
      var next := Next(fixed, lines[0], start);
      var rest := Rewrite(fixed, lines[1..], rows, projs, matches, st, formatRow, next);
      assert rest.Success? && out == [out[0]] + rest.value;
      RewriteOutput(fixed, lines[1..], rows, projs, matches, st, formatRow, next);
      assert lines[..0] == [];
      forall k | 1 <= k < |lines|
        ensures OutputAt(fixed, lines, rows, projs, matches, st, formatRow, start, k) == Success(out[k])
      {
        OutputAtTail(fixed, lines, rows, projs, matches, st, formatRow, start, k);
        assert rest.value[k - 1] == out[k];
      }
    }
  }

  /** Counting with the corrected rule counts exactly the reader's row lines. */
  lemma {:induction false} CountRowLines(lines: seq<string>)
    ensures CountOf(true, lines) == RowCount(lines)
    decreases |lines|
  {
    if |lines| > 0 {
      CountRowLines(lines[1..]);
    }
  }

  /** Every data-pattern line is a row line or a short line, so the as-written count is the row
      count plus the short lines. */
  lemma {:induction false} DataCountSplits(lines: seq<string>)
    ensures CountOf(false, lines) >= CountOf(true, lines)
    ensures (exists k :: 0 <= k < |lines| && IsShortDataLine(lines[k]))
      ==> CountOf(false, lines) > CountOf(true, lines)
    decreases |lines|
  {
    if |lines| > 0 {
      DataCountSplits(lines[1..]);
      if exists k :: 0 <= k < |lines| && IsShortDataLine(lines[k]) {
        var k :| 0 <= k < |lines| && IsShortDataLine(lines[k]);
        if k > 0 {
          assert IsShortDataLine(lines[1..][k - 1]);
        }
      }
    }
  }

  /** Once more lines advance `row_index` than rows remain, the rewrite aborts. */
  lemma {:induction false} TooFewRowsFails(fixed: bool, lines: seq<string>, rows: seq<AlignmentRow>,
                                           projs: seq<ProjectionRow>, matches: map<nat, nat>,
                                           st: ShiftSettings, formatRow: RowValues -> string, start: nat)
    requires start <= |rows| < start + CountOf(fixed, lines)
    ensures Rewrite(fixed, lines, rows, projs, matches, st, formatRow, start).Failure?
    decreases |lines|
  {
    if start < |rows| || !IsCounted(fixed, lines[0]) {
      TooFewRowsFails(fixed, lines[1..], rows, projs, matches, st, formatRow, Next(fixed, lines[0], start));
    }
  }

  /** As written, a file holding a data-pattern line with fewer than ten fields (AreTomo3's local
      alignment rows) cannot be rewritten with the rows its own reader returned. */
  lemma AsWrittenFailsOnShortLine(lines: seq<string>, parseReal: string -> Option<real>,
                                  projs: seq<ProjectionRow>, matches: map<nat, nat>,
                                  st: ShiftSettings, formatRow: RowValues -> string)
    requires ParseAln(lines, parseReal).Success?
    requires exists k :: 0 <= k < |lines| && IsShortDataLine(lines[k])
    ensures WriteUpdatedAln(lines, ParseAln(lines, parseReal).value, projs, matches, st, formatRow).Failure?
  {
    var rows := ParseAln(lines, parseReal).value;
    DataCountSplits(lines);
    CountRowLines(lines);
    TooFewRowsFails(false, lines, rows, projs, matches, st, formatRow, 0);
  }

  /** When no matched row can fail on its own (every projection index in range, a non-zero pixel
      size), a rewrite that fails has run out of parsed rows. */
  lemma {:induction false} RewriteErrorIsRowIndex(fixed: bool, lines: seq<string>, rows: seq<AlignmentRow>,
                                                  projs: seq<ProjectionRow>, matches: map<nat, nat>,
                                                  st: ShiftSettings, formatRow: RowValues -> string, start: nat)
    requires forall q :: q in matches ==> matches[q] < |projs|
    requires st.pixelSize != 0.0
    requires Rewrite(fixed, lines, rows, projs, matches, st, formatRow, start).Failure?
    ensures var e := Rewrite(fixed, lines, rows, projs, matches, st, formatRow, start).error;
      e.RowIndexOutOfRange? && e.rowIndex >= |rows|
    decreases |lines|
  {
    if LineOutput(fixed, lines[0], rows, projs, matches, st, formatRow, start).Success? {
      RewriteErrorIsRowIndex(fixed, lines[1..], rows, projs, matches, st, formatRow, Next(fixed, lines[0], start));
    }
  }

  /** Without short data lines the two rewrites are the same function. */
  lemma {:induction false} RewritesAgree(lines: seq<string>, rows: seq<AlignmentRow>, projs: seq<ProjectionRow>,
                                         matches: map<nat, nat>, st: ShiftSettings,
                                         formatRow: RowValues -> string, start: nat)
    requires forall k :: 0 <= k < |lines| ==> !IsShortDataLine(lines[k])
    ensures Rewrite(false, lines, rows, projs, matches, st, formatRow, start)
      == Rewrite(true, lines, rows, projs, matches, st, formatRow, start)
    decreases |lines|
  {
    if |lines| > 0 {
      assert !IsShortDataLine(lines[0]);
      assert forall k :: 0 <= k < |lines[1..]| ==> lines[1..][k] == lines[k + 1];
      RewritesAgree(lines[1..], rows, projs, matches, st, formatRow, start);
      RewritesAgree(lines[1..], rows, projs, matches, st, formatRow, start + 1);
    }
  }

  /** One line's output does not depend on `binning`. */
  lemma LineIgnoresBinning(fixed: bool, line: string, rows: seq<AlignmentRow>, projs: seq<ProjectionRow>,
                           matches: map<nat, nat>, st: ShiftSettings, binning: int,
                           formatRow: RowValues -> string, q: nat)
    ensures LineOutput(fixed, line, rows, projs, matches, st, formatRow, q)
      == LineOutput(fixed, line, rows, projs, matches, st.(binning := binning), formatRow, q)
  {
    if IsCounted(fixed, line) && q < |rows| && q in matches && matches[q] < |projs| && st.pixelSize != 0.0 {
      assert UpdatedRow(rows[q], projs[matches[q]], st)
        == UpdatedRow(rows[q], projs[matches[q]], st.(binning := binning));
    }
  }

  /** The written file does not depend on `binning`. */
  lemma {:induction false} BinningIgnored(fixed: bool, lines: seq<string>, rows: seq<AlignmentRow>,
                                          projs: seq<ProjectionRow>, matches: map<nat, nat>,
                                          st: ShiftSettings, binning: int, formatRow: RowValues -> string,
                                          start: nat)
    ensures Rewrite(fixed, lines, rows, projs, matches, st, formatRow, start)
      == Rewrite(fixed, lines, rows, projs, matches, st.(binning := binning), formatRow, start)
    decreases |lines|
  {
    if |lines| > 0 {
      LineIgnoresBinning(fixed, lines[0], rows, projs, matches, st, binning, formatRow, start);
      BinningIgnored(fixed, lines[1..], rows, projs, matches, st, binning, formatRow, Next(fixed, lines[0], start));
    }
  }

  /** With the rows the reader returned, line `k` of the corrected rewrite is copied unless it is a
      row line, and row line `k` reads the row parsed from it, numbered by the row lines before it. */
  lemma FixedLineOutput(lines: seq<string>, parseReal: string -> Option<real>, projs: seq<ProjectionRow>,
                        matches: map<nat, nat>, st: ShiftSettings, formatRow: RowValues -> string, k: nat)
    requires ParseAln(lines, parseReal).Success? && k < |lines|
    ensures var rows := ParseAln(lines, parseReal).value;
      var q := RowCount(lines[..k]);
      && (!IsRowLine(lines[k]) ==> OutputAt(true, lines, rows, projs, matches, st, formatRow, 0, k) == Success(lines[k]))
      && (IsRowLine(lines[k]) ==>
            && q < |rows| && rows[q].rawLine == lines[k]
            && OutputAt(true, lines, rows, projs, matches, st, formatRow, 0, k)
               == RowOutput(rows[q], q, projs, matches, st, formatRow))
  {
    CountRowLines(lines[..k]);
    if IsRowLine(lines[k]) {
      RowLineAt(lines, k);
      RowsCarryTheirLines(lines, parseReal);
    }
  }

  /** The corrected rewrite of a parsed file succeeds exactly when every matched row's projection
      index is in range and the pixel size is not zero. */
  lemma FixedRewriteSucceeds(lines: seq<string>, parseReal: string -> Option<real>, projs: seq<ProjectionRow>,
                             matches: map<nat, nat>, st: ShiftSettings, formatRow: RowValues -> string)
    requires ParseAln(lines, parseReal).Success?
    ensures WriteUpdatedAlnFixed(lines, ParseAln(lines, parseReal).value, projs, matches, st, formatRow).Success?
      <==> forall k :: 0 <= k < |lines| && IsRowLine(lines[k]) && RowCount(lines[..k]) in matches ==>
             matches[RowCount(lines[..k])] < |projs| && st.pixelSize != 0.0
  {
    var rows := ParseAln(lines, parseReal).value;
    RewriteSucceeds(true, lines, rows, projs, matches, st, formatRow, 0);
    forall k | 0 <= k < |lines|
      ensures OutputAt(true, lines, rows, projs, matches, st, formatRow, 0, k).Success?
        <==> (IsRowLine(lines[k]) && RowCount(lines[..k]) in matches ==>
                matches[RowCount(lines[..k])] < |projs| && st.pixelSize != 0.0)
    {
      FixedLineOutput(lines, parseReal, projs, matches, st, formatRow, k);
    }
  }

  /** What the corrected rewrite of a parsed file writes: every line that is not a matched row,
      header, short data line or unmatched row alike, verbatim; every matched row formatted from
      its updated values. */
  lemma FixedRewriteOutput(lines: seq<string>, parseReal: string -> Option<real>, projs: seq<ProjectionRow>,
                           matches: map<nat, nat>, st: ShiftSettings, formatRow: RowValues -> string)
    requires ParseAln(lines, parseReal).Success?
    requires WriteUpdatedAlnFixed(lines, ParseAln(lines, parseReal).value, projs, matches, st, formatRow).Success?
    ensures var rows := ParseAln(lines, parseReal).value;
      var out := WriteUpdatedAlnFixed(lines, rows, projs, matches, st, formatRow).value;
      && |out| == |lines|
      && (forall k :: 0 <= k < |lines| && !(IsRowLine(lines[k]) && RowCount(lines[..k]) in matches) ==>
            out[k] == lines[k])
      && (forall k :: 0 <= k < |lines| && IsRowLine(lines[k]) && RowCount(lines[..k]) in matches ==>
            && RowCount(lines[..k]) < |rows| && matches[RowCount(lines[..k])] < |projs| && st.pixelSize != 0.0
            && out[k] == formatRow(UpdatedRow(rows[RowCount(lines[..k])], projs[matches[RowCount(lines[..k])]], st)))
  {
    var rows := ParseAln(lines, parseReal).value;
    RewriteSucceeds(true, lines, rows, projs, matches, st, formatRow, 0);
    RewriteOutput(true, lines, rows, projs, matches, st, formatRow, 0);
    forall k | 0 <= k < |lines|
      ensures var q := RowCount(lines[..k]);
        && (!IsRowLine(lines[k]) ==> OutputAt(true, lines, rows, projs, matches, st, formatRow, 0, k) == Success(lines[k]))
        && (IsRowLine(lines[k]) ==>
              && q < |rows| && rows[q].rawLine == lines[k]
              && OutputAt(true, lines, rows, projs, matches, st, formatRow, 0, k)
                 == RowOutput(rows[q], q, projs, matches, st, formatRow))
    {
      FixedLineOutput(lines, parseReal, projs, matches, st, formatRow, k);
    }
  }

  /** A full tilt row followed by a shorter numbered row (AreTomo3's local-alignment rows have
      seven fields): as written the rewrite aborts on the second line even with nothing matched;
      corrected, both lines pass through unchanged. */
  lemma ShortLineCounterexample(tiltFields: seq<string>, localFields: seq<string>,
                                parseReal: string -> Option<real>, st: ShiftSettings,
                                formatRow: RowValues -> string)
    requires |tiltFields| == RowFieldCount && 2 <= |localFields| < RowFieldCount
    requires forall k :: 0 <= k < |tiltFields| ==> IsWord(tiltFields[k])
    requires forall k :: 0 <= k < |localFields| ==> IsWord(localFields[k])
    requires AllDigits(tiltFields[0]) && AllDigits(localFields[0])
    requires forall k :: 1 <= k < |tiltFields| ==> parseReal(tiltFields[k]).Some?
    ensures var tilt := JoinBlank(tiltFields);
      var local := JoinBlank(localFields);
      && ParseAln([tilt, local], parseReal).Success?
      && WriteUpdatedAln([tilt, local], ParseAln([tilt, local], parseReal).value, [], map[], st, formatRow)
         == Failure(RowIndexOutOfRange(1))
      && WriteUpdatedAlnFixed([tilt, local], ParseAln([tilt, local], parseReal).value, [], map[], st, formatRow)
         == Success([tilt, local])
  {
    var tilt := JoinBlank(tiltFields);
    var local := JoinBlank(localFields);
    NumberedLine(tiltFields);
    NumberedLine(localFields);
    ParseRowSucceeds(tilt, parseReal);
    assert ParseRow(tilt, parseReal).Success?;
    ParseTwoLines(tilt, local, parseReal);
    RewriteTwoLines(tilt, local, ParseRow(tilt, parseReal).value, st, formatRow);
  }

  lemma ParseTwoLines(tilt: string, local: string, parseReal: string -> Option<real>)
    requires IsRowLine(tilt) && IsShortDataLine(local) && ParseRow(tilt, parseReal).Success?
    ensures ParseAln([tilt, local], parseReal) == Success([ParseRow(tilt, parseReal).value])
  {
    var lines := [tilt, local];
    var empty: seq<string> := [];
    assert lines[1..] == [local] && [local][1..] == empty;
    assert !IsRowLine(local);
    assert RowLines([local]) == RowLines(empty) == [];
    assert RowLines(lines) == [tilt];
    var row := ParseRow(tilt, parseReal).value;
    assert [tilt][1..] == empty;
    assert ReadRows(empty, parseReal) == Success([]);
    assert [row] + [] == [row];
  }

  lemma RewriteTwoLines(tilt: string, local: string, row: AlignmentRow, st: ShiftSettings,
                        formatRow: RowValues -> string)
    requires IsRowLine(tilt) && IsShortDataLine(local) && row.rawLine == tilt
    ensures WriteUpdatedAln([tilt, local], [row], [], map[], st, formatRow) == Failure(RowIndexOutOfRange(1))
    ensures WriteUpdatedAlnFixed([tilt, local], [row], [], map[], st, formatRow) == Success([tilt, local])
  {
    var lines := [tilt, local];
    var empty: seq<string> := [];
    assert lines[1..] == [local] && [local][1..] == empty;
    assert IsDataLine(local) && !IsRowLine(local);
    assert Rewrite(true, empty, [row], [], map[], st, formatRow, 1) == Success([]);
    assert LineOutput(true, local, [row], [], map[], st, formatRow, 1) == Success(local);
    assert [local] + [] == [local];
    assert Rewrite(false, [local], [row], [], map[], st, formatRow, 1) == Failure(RowIndexOutOfRange(1));
    assert Rewrite(true, [local], [row], [], map[], st, formatRow, 1) == Success([local]);
    assert LineOutput(true, tilt, [row], [], map[], st, formatRow, 0) == Success(tilt);
    assert Next(true, tilt, 0) == 1;
    assert [tilt] + [local] == lines;
  }
}
