/** The AreTomo3 `.aln` reader: which lines are tilt rows, and how a row's ten fields are read. */
module AlnTable {
  import opened Results
  import opened AlnText

  /** One tilt of an `.aln` file: the ten numeric columns and the line they were read from. */
  datatype AlignmentRow = AlignmentRow(
    sec: int,
    rot: real,
    gmag: real,
    tx: real,
    ty: real,
    smean: real,
    sfit: real,
    scale: real,
    base: real,
    tilt: real,
    rawLine: string)

  /** `float()` raised on field `field` (1..9) of `line`. */
  datatype ParseError = BadNumber(line: string, field: nat)

  /** The number of whitespace-separated fields a tilt row must have. */
  const RowFieldCount: nat := 10

  /** A line the reader turns into a row: it matches the data pattern and has at least ten fields. */
  predicate IsRowLine(line: string)
  {
    IsDataLine(line) && |Fields(line)| >= RowFieldCount
  }

  /** The lines that become rows, in file order. */
  function RowLines(lines: seq<string>): (r: seq<string>)
    ensures |r| <= |lines|
    ensures forall k :: 0 <= k < |r| ==> IsRowLine(r[k])
  {
    if |lines| == 0 then []
    else (if IsRowLine(lines[0]) then [lines[0]] else []) + RowLines(lines[1..])
  }

  /** Reads `fs` as numbers with `parseReal`, left to right; on failure, the position of the first
      field that does not parse. */
  function ParseReals(fs: seq<string>, parseReal: string -> Option<real>): (r: Result<seq<real>, nat>)
    ensures r.Success? ==> |r.value| == |fs| && forall k :: 0 <= k < |fs| ==> parseReal(fs[k]) == Some(r.value[k])
    ensures r.Failure? ==>
      && r.error < |fs| && parseReal(fs[r.error]).None?
      && forall k :: 0 <= k < r.error ==> parseReal(fs[k]).Some?
  {
    if |fs| == 0 then Success([])
    else match parseReal(fs[0])
      case None => Failure(0)
      case Some(x) =>
        match ParseReals(fs[1..], parseReal)
        case Failure(k) => Failure(k + 1)
        case Success(xs) => Success([x] + xs)
  }

  /** One row line read into an `AlignmentRow`; `sec` is the value of the leading digit run
      (`int()`, without CPython's 4300-digit limit), the nine others are read with `float()`. */
  function ParseRow(line: string, parseReal: string -> Option<real>): (r: Result<AlignmentRow, ParseError>)
    requires IsRowLine(line)
    ensures r.Success? ==> r.value.rawLine == line
    ensures r.Failure? ==> r.error.line == line && 1 <= r.error.field < RowFieldCount
  {
    var fs := Fields(line);
    DataLineFirstField(line);
    match ParseReals(fs[1..RowFieldCount], parseReal)
    case Failure(k) => Failure(BadNumber(line, k + 1))
    case Success(v) => Success(AlignmentRow(DigitsValue(fs[0]), v[0], v[1], v[2], v[3], v[4], v[5], v[6], v[7], v[8], line))
  }

  /** A row line reads exactly when its fields 1 to 9 are numbers. */
  lemma ParseRowSucceeds(line: string, parseReal: string -> Option<real>)
    requires IsRowLine(line)
    ensures ParseRow(line, parseReal).Success?
      <==> forall k :: 1 <= k < RowFieldCount ==> parseReal(Fields(line)[k]).Some?
  {
    var fs := Fields(line);
    DataLineFirstField(line);
    var numbers := fs[1..RowFieldCount];
    assert forall k :: 1 <= k < RowFieldCount ==> numbers[k - 1] == fs[k];
    if ParseReals(numbers, parseReal).Failure? {
      var k := ParseReals(numbers, parseReal).error;
      assert parseReal(fs[k + 1]).None?;
    }
  }

  /** A row read from a line holds its first field as an integer and fields 1 to 9, in column
      order. */
  lemma ParseRowValues(line: string, parseReal: string -> Option<real>)
    requires IsRowLine(line) && ParseRow(line, parseReal).Success?
    ensures var row := ParseRow(line, parseReal).value;
      var fs := Fields(line);
      && AllDigits(fs[0]) && row.sec == DigitsValue(fs[0])
      && parseReal(fs[1]) == Some(row.rot)
      && parseReal(fs[2]) == Some(row.gmag)
      && parseReal(fs[3]) == Some(row.tx)
      && parseReal(fs[4]) == Some(row.ty)
      && parseReal(fs[5]) == Some(row.smean)
      && parseReal(fs[6]) == Some(row.sfit)
      && parseReal(fs[7]) == Some(row.scale)
      && parseReal(fs[8]) == Some(row.base)
      && parseReal(fs[9]) == Some(row.tilt)
  {
    var fs := Fields(line);
    DataLineFirstField(line);
    var numbers := fs[1..RowFieldCount];
    assert forall k :: 1 <= k < RowFieldCount ==> numbers[k - 1] == fs[k];
    var v := ParseReals(numbers, parseReal).value;
    assert ParseRow(line, parseReal)
      == Success(AlignmentRow(DigitsValue(fs[0]), v[0], v[1], v[2], v[3], v[4], v[5], v[6], v[7], v[8], line));
  }

  /** A row line that does not read names its first field that is not a number. */
  lemma ParseRowFailure(line: string, parseReal: string -> Option<real>)
    requires IsRowLine(line) && ParseRow(line, parseReal).Failure?
    ensures var field := ParseRow(line, parseReal).error.field;
      && parseReal(Fields(line)[field]).None?
      && forall k :: 1 <= k < field ==> parseReal(Fields(line)[k]).Some?
  {
    var fs := Fields(line);
    DataLineFirstField(line);
    var numbers := fs[1..RowFieldCount];
    var k := ParseReals(numbers, parseReal).error;
    assert ParseRow(line, parseReal) == Failure(BadNumber(line, k + 1));
    assert numbers[k] == fs[k + 1];
    forall j | 1 <= j < k + 1
      ensures parseReal(fs[j]).Some?
    {
      assert numbers[j - 1] == fs[j];
    }
  }

  /** Row lines read one by one, in order; the first line whose numbers do not parse aborts. */
  function ReadRows(ls: seq<string>, parseReal: string -> Option<real>): (r: Result<seq<AlignmentRow>, ParseError>)
    requires forall k :: 0 <= k < |ls| ==> IsRowLine(ls[k])
    ensures r.Success? ==> |r.value| == |ls|
  {
    if |ls| == 0 then Success([])
    else match ParseRow(ls[0], parseReal)
      case Failure(e) => Failure(e)
      case Success(row) =>
        match ReadRows(ls[1..], parseReal)
        case Failure(e) => Failure(e)
        case Success(rows) => Success([row] + rows)
  }

  /** `parse_aln_file` after the file has been read and split into lines: the lines that are not
      row lines are skipped, and the row lines are read in file order. */
  function ParseAln(lines: seq<string>, parseReal: string -> Option<real>): (r: Result<seq<AlignmentRow>, ParseError>)
    ensures r.Success? ==> |r.value| == RowCount(lines)
  {
    ReadRows(RowLines(lines), parseReal)
  }

  /** One step of a successful read: the first line gives the first row and the rest the rest. */
  lemma ReadRowsStep(ls: seq<string>, parseReal: string -> Option<real>)
    requires forall k :: 0 <= k < |ls| ==> IsRowLine(ls[k])
    requires |ls| > 0 && ReadRows(ls, parseReal).Success?
    ensures ReadRows(ls[1..], parseReal).Success?
    ensures var rows := ReadRows(ls, parseReal).value;
      ParseRow(ls[0], parseReal) == Success(rows[0]) && rows[1..] == ReadRows(ls[1..], parseReal).value
  {
  }

  /** Reading row lines yields, at each position, the row read from the line at that position. */
  lemma {:induction false} ReadRowsInOrder(ls: seq<string>, parseReal: string -> Option<real>)
    requires forall k :: 0 <= k < |ls| ==> IsRowLine(ls[k])
    requires ReadRows(ls, parseReal).Success?
    ensures forall k :: 0 <= k < |ls| ==> ParseRow(ls[k], parseReal) == Success(ReadRows(ls, parseReal).value[k])
    decreases |ls|
  {
    if |ls| > 0 {
      var tail := ls[1..];
      ReadRowsInOrder(tail, parseReal);
      ReadRowsStep(ls, parseReal);
      var rows := ReadRows(ls, parseReal).value;
      var rest := ReadRows(tail, parseReal).value;
      forall k | 1 <= k < |ls|
        ensures ParseRow(ls[k], parseReal) == Success(rows[k])
      {
        assert tail[k - 1] == ls[k] && rest[k - 1] == rows[k];
      }
    }
  }

  /** Reading row lines succeeds exactly when each of them reads. */
  lemma ReadRowsSucceeds(ls: seq<string>, parseReal: string -> Option<real>)
    requires forall k :: 0 <= k < |ls| ==> IsRowLine(ls[k])
    ensures ReadRows(ls, parseReal).Success? <==> forall k :: 0 <= k < |ls| ==> ParseRow(ls[k], parseReal).Success?
  {
    if ReadRows(ls, parseReal).Success? {
      ReadRowsEachRead(ls, parseReal);
    } else {
      ReadRowsFailure(ls, parseReal);
    }
  }

  /** After a successful read, each line reads on its own. */
  lemma {:induction false} ReadRowsEachRead(ls: seq<string>, parseReal: string -> Option<real>)
    requires forall k :: 0 <= k < |ls| ==> IsRowLine(ls[k])
    requires ReadRows(ls, parseReal).Success?
    ensures forall k :: 0 <= k < |ls| ==> ParseRow(ls[k], parseReal).Success?
    decreases |ls|
  {
    if |ls| > 0 {
      var tail := ls[1..];
      ReadRowsStep(ls, parseReal);
      ReadRowsEachRead(tail, parseReal);
      forall k | 1 <= k < |ls|
        ensures ParseRow(ls[k], parseReal).Success?
      {
        assert tail[k - 1] == ls[k];
      }
    }
  }

  /** A failed read reports the error of the first line that does not read; every line before it
      reads. */
  lemma {:induction false} ReadRowsFailure(ls: seq<string>, parseReal: string -> Option<real>)
    requires forall k :: 0 <= k < |ls| ==> IsRowLine(ls[k])
    requires ReadRows(ls, parseReal).Failure?
    ensures exists k :: (0 <= k < |ls| && ParseRow(ls[k], parseReal) == Failure(ReadRows(ls, parseReal).error)
      && forall j :: 0 <= j < k ==> ParseRow(ls[j], parseReal).Success?)
    decreases |ls|
  {
    var e := ReadRows(ls, parseReal).error;
    if ParseRow(ls[0], parseReal).Failure? {
      assert ParseRow(ls[0], parseReal) == Failure(e);
    } else {
      var tail := ls[1..];
      ReadRowsFailure(tail, parseReal);
      var k :| (0 <= k < |tail| && ParseRow(tail[k], parseReal) == Failure(e)
        && forall j :: 0 <= j < k ==> ParseRow(tail[j], parseReal).Success?);
      assert tail[k] == ls[k + 1];
      forall j | 1 <= j < k + 1
        ensures ParseRow(ls[j], parseReal).Success?
      {
        assert tail[j - 1] == ls[j];
      }
    }
  }

  /** Reading succeeds exactly when every row line's numbers parse. */
  lemma ParseAlnSucceeds(lines: seq<string>, parseReal: string -> Option<real>)
    ensures ParseAln(lines, parseReal).Success?
      <==> forall k :: 0 <= k < |lines| && IsRowLine(lines[k]) ==> ParseRow(lines[k], parseReal).Success?
  {
    var ls := RowLines(lines);
    ReadRowsSucceeds(ls, parseReal);
    if ParseAln(lines, parseReal).Success? {
      forall k | 0 <= k < |lines| && IsRowLine(lines[k])
        ensures ParseRow(lines[k], parseReal).Success?
      {
        RowLineAt(lines, k);
      }
    } else {
      var j :| 0 <= j < |ls| && !ParseRow(ls[j], parseReal).Success?;
      var k := RowLineOf(lines, j);
      assert !ParseRow(lines[k], parseReal).Success?;
    }
  }

  /** The rows are the row lines read one by one, in file order. */
  lemma ParseAlnRows(lines: seq<string>, parseReal: string -> Option<real>)
    requires ParseAln(lines, parseReal).Success?
    ensures var rows := ParseAln(lines, parseReal).value;
      forall k :: 0 <= k < |rows| ==> ParseRow(RowLines(lines)[k], parseReal) == Success(rows[k])
  {
    ReadRowsInOrder(RowLines(lines), parseReal);
  }

  /** When reading fails, the error is the one raised on the first row line of the file that does
      not read; every row line before it reads. */
  lemma ParseAlnFailure(lines: seq<string>, parseReal: string -> Option<real>)
    requires ParseAln(lines, parseReal).Failure?
    ensures exists k :: (0 <= k < |lines| && IsRowLine(lines[k])
      && ParseRow(lines[k], parseReal) == Failure(ParseAln(lines, parseReal).error)
      && forall p :: 0 <= p < k && IsRowLine(lines[p]) ==> ParseRow(lines[p], parseReal).Success?)
  {
    var ls := RowLines(lines);
    ReadRowsFailure(ls, parseReal);
    var j :| (0 <= j < |ls| && ParseRow(ls[j], parseReal) == Failure(ParseAln(lines, parseReal).error)
      && forall i :: 0 <= i < j ==> ParseRow(ls[i], parseReal).Success?);
    RowNumbered(lines, j);
    var k :| 0 <= k < |lines| && IsRowLine(lines[k]) && RowCount(lines[..k]) == j;
    RowLineAt(lines, k);
    forall p | 0 <= p < k && IsRowLine(lines[p])
      ensures ParseRow(lines[p], parseReal).Success?
    {
      RowLineAt(lines, p);
      RowCountGrows(lines, p, k);
    }
  }

  /** Each row's `rawLine` is the line it was read from, so the rows' lines are the row lines. */
  lemma RowsCarryTheirLines(lines: seq<string>, parseReal: string -> Option<real>)
    requires ParseAln(lines, parseReal).Success?
    ensures var rows := ParseAln(lines, parseReal).value;
      forall k :: 0 <= k < |rows| ==> rows[k].rawLine == RowLines(lines)[k]
  {
    ParseAlnRows(lines, parseReal);
  }

  /** Number of row lines among `lines`. */
  function RowCount(lines: seq<string>): nat
  {
    |RowLines(lines)|
  }

  /** The row line at position `k` of the file is the row numbered by how many row lines precede it. */
  lemma {:induction false} RowLineAt(lines: seq<string>, k: nat)
    requires k < |lines| && IsRowLine(lines[k])
    ensures RowCount(lines[..k]) < |RowLines(lines)|
    ensures RowLines(lines)[RowCount(lines[..k])] == lines[k]
    decreases k
  {
    if k == 0 {
      assert lines[..0] == [];
    } else {
      RowLineAt(lines[1..], k - 1);
      assert lines[1..][..k - 1] == lines[..k][1..];
      assert lines[1..][k - 1] == lines[k];
    }
  }

  /** Conversely, every row number belongs to some row line of the file. */
  lemma {:induction false} RowNumbered(lines: seq<string>, q: nat)
    requires q < RowCount(lines)
    ensures exists k :: 0 <= k < |lines| && IsRowLine(lines[k]) && RowCount(lines[..k]) == q
    decreases |lines|
  {
    assert |lines| > 0;
    if IsRowLine(lines[0]) && q == 0 {
      assert lines[..0] == [];
    } else {
      var q' := if IsRowLine(lines[0]) then q - 1 else q;
      RowNumbered(lines[1..], q');
      var k :| 0 <= k < |lines[1..]| && IsRowLine(lines[1..][k]) && RowCount(lines[1..][..k]) == q';
      assert lines[1..][k] == lines[k + 1];
      assert lines[..k + 1][0] == lines[0];
      assert lines[..k + 1][1..] == lines[1..][..k];
      assert RowCount(lines[..k + 1]) == q;
    }
  }

  /** Row lines of a concatenation are those of each part, in order. */
  lemma {:induction false} RowLinesAppend(a: seq<string>, b: seq<string>)
    ensures RowLines(a + b) == RowLines(a) + RowLines(b)
    decreases |a|
  {
    if |a| == 0 {
      assert a + b == b;
    } else {
      assert (a + b)[0] == a[0];
      assert (a + b)[1..] == a[1..] + b;
      RowLinesAppend(a[1..], b);
    }
  }

  /** A row line at position `p` is counted before any later position `k`. */
  lemma RowCountGrows(lines: seq<string>, p: nat, k: nat)
    requires p < k <= |lines| && IsRowLine(lines[p])
    ensures RowCount(lines[..p]) < RowCount(lines[..k])
  {
    var rest := lines[p + 1..k];
    assert lines[..k] == lines[..p] + ([lines[p]] + rest);
    RowLinesAppend(lines[..p], [lines[p]] + rest);
    RowLinesAppend([lines[p]], rest);
    assert [lines[p]][1..] == [];
  }

  /** The position in the file of row number `j`. */
  lemma RowLineOf(lines: seq<string>, j: nat) returns (k: nat)
    requires j < RowCount(lines)
    ensures k < |lines| && IsRowLine(lines[k]) && RowLines(lines)[j] == lines[k]
  {
    RowNumbered(lines, j);
    k :| 0 <= k < |lines| && IsRowLine(lines[k]) && RowCount(lines[..k]) == j;
    RowLineAt(lines, k);
  }

  /** A data line the reader skips because it has fewer than ten fields. */
  predicate IsShortDataLine(line: string)
  {
    IsDataLine(line) && |Fields(line)| < RowFieldCount
  }
}
