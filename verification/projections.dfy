/** The RELION polish `_projections.star` reader, after the table has been loaded: columns are
    found by case-insensitive partial label match, never by position. */
module Projections {
  import opened Results

  /** One tilt of the polished projection table: the tilt (already sign-adjusted), the in-plane
      rotation and the two shifts in Ångström. */
  datatype ProjectionRow = ProjectionRow(ytilt: real, zrot: real, dxAng: real, dyAng: real)

  /** `find_column` raised `KeyError`: no column label contains any of these keywords. */
  datatype ColumnError = ColumnNotFound(keywords: seq<string>)

  const TiltKeywords: seq<string> := ["TomoYTilt"]
  const ZRotKeywords: seq<string> := ["TomoZRot"]
  const XShiftKeywords: seq<string> := ["TomoXShiftAngst"]
  const YShiftKeywords: seq<string> := ["TomoYShiftAngst"]

  /** `str.lower` on one character (ASCII letters only in this model). */
  function Lower(c: char): (d: char)
    ensures 'A' <= c <= 'Z' ==> 'a' <= d <= 'z' && d as int - 'a' as int == c as int - 'A' as int
    ensures !('A' <= c <= 'Z') ==> d == c
  {
    if 'A' <= c <= 'Z' then (c as int - 'A' as int + 'a' as int) as char else c
  }

  /** `str.lower` on a string, character by character. */
  function LowerString(s: string): (t: string)
    ensures |t| == |s| && forall k :: 0 <= k < |s| ==> t[k] == Lower(s[k])
  {
    seq(|s|, k requires 0 <= k < |s| => Lower(s[k]))
  }

  /** Python's `needle in hay` on strings. */
  predicate Contains(hay: string, needle: string)
  {
    exists i :: 0 <= i <= |hay| && OccursAt(hay, needle, i)
  }

  /** `needle` occurs in `hay` starting at position `i`. */
  predicate OccursAt(hay: string, needle: string, i: nat)
  {
    i + |needle| <= |hay| && hay[i..i + |needle|] == needle
  }

  /** `keyword.lower() in col.lower()`. */
  predicate LabelMatches(column: string, keyword: string)
  {
    Contains(LowerString(column), LowerString(keyword))
  }

  /** The first column, at or after `from`, whose label matches `keyword`. */
  function FirstMatchingColumn(columns: seq<string>, keyword: string, from: nat): (r: Option<nat>)
    requires from <= |columns|
    ensures r.Some? ==> from <= r.value < |columns| && LabelMatches(columns[r.value], keyword)
    ensures forall c :: from <= c < (if r.Some? then r.value else |columns|) ==> !LabelMatches(columns[c], keyword)
    decreases |columns| - from
  {
    if from == |columns| then None
    else if LabelMatches(columns[from], keyword) then Some(from)
    else FirstMatchingColumn(columns, keyword, from + 1)
  }

  /** No keyword before position `k` matches any column. */
  ghost predicate NoEarlierKeyword(columns: seq<string>, keywords: seq<string>, k: nat)
    requires k <= |keywords|
  {
    forall k', c :: 0 <= k' < k && 0 <= c < |columns| ==> !LabelMatches(columns[c], keywords[k'])
  }

  /** The keywords are tried in order; for each, the columns in order; the first hit wins. */
  function FindColumnFrom(columns: seq<string>, keywords: seq<string>, k: nat): (r: Option<nat>)
    requires k <= |keywords|
    requires NoEarlierKeyword(columns, keywords, k)
    ensures r.None? <==> NoEarlierKeyword(columns, keywords, |keywords|)
    ensures r.Some? ==> (r.value < |columns|
      && exists k' :: k <= k' < |keywords| && IsFirstHit(columns, keywords, k', r.value))
    decreases |keywords| - k
  {
    if k == |keywords| then None
    else match FirstMatchingColumn(columns, keywords[k], 0)
      case Some(c) =>
        assert IsFirstHit(columns, keywords, k, c);
        Some(c)
      case None => FindColumnFrom(columns, keywords, k + 1)
  }

  /** Column `c` is what `find_column` returns through keyword `k`: no earlier keyword matched any
      column, and `c` is the first column keyword `k` matches. */
  ghost predicate IsFirstHit(columns: seq<string>, keywords: seq<string>, k: nat, c: nat)
    requires k < |keywords| && c < |columns|
  {
    && NoEarlierKeyword(columns, keywords, k)
    && LabelMatches(columns[c], keywords[k])
    && forall c' :: 0 <= c' < c ==> !LabelMatches(columns[c'], keywords[k])
  }

  /** `find_column(columns, keywords)`: the position of the column found, or `KeyError`. */
  function FindColumn(columns: seq<string>, keywords: seq<string>): (r: Result<nat, ColumnError>)
    ensures r.Success? ==> r.value < |columns|
    ensures r.Failure? ==> r.error == ColumnNotFound(keywords)
  {
    match FindColumnFrom(columns, keywords, 0)
    case Some(c) => Success(c)
    case None => Failure(ColumnNotFound(keywords))
  }

  /** The search rule: `KeyError` exactly when no keyword occurs in any label; otherwise the column
      returned is the first one matching the first keyword that matches anything. */
  lemma FindColumnIsFirstHit(columns: seq<string>, keywords: seq<string>)
    ensures FindColumn(columns, keywords).Failure?
      <==> forall k, c :: 0 <= k < |keywords| && 0 <= c < |columns| ==> !LabelMatches(columns[c], keywords[k])
    ensures FindColumn(columns, keywords).Success? ==>
      exists k :: 0 <= k < |keywords| && IsFirstHit(columns, keywords, k, FindColumn(columns, keywords).value)
  {
  }

  /** The four column positions `parse_relion_projections` reads. */
  datatype ColumnLayout = ColumnLayout(tilt: nat, zrot: nat, dx: nat, dy: nat)

  /** Locates the four required columns in the order the source does; the first missing one raises. */
  function FindLayout(columns: seq<string>): (r: Result<ColumnLayout, ColumnError>)
    ensures r.Success? <==>
      && FindColumn(columns, TiltKeywords).Success?
      && FindColumn(columns, ZRotKeywords).Success?
      && FindColumn(columns, XShiftKeywords).Success?
      && FindColumn(columns, YShiftKeywords).Success?
    ensures r.Success? ==> r.value == ColumnLayout(
      FindColumn(columns, TiltKeywords).value, FindColumn(columns, ZRotKeywords).value,
      FindColumn(columns, XShiftKeywords).value, FindColumn(columns, YShiftKeywords).value)
  {
    match FindColumn(columns, TiltKeywords)
    case Failure(e) => Failure(e)
    case Success(t) =>
      match FindColumn(columns, ZRotKeywords)
      case Failure(e) => Failure(e)
      case Success(z) =>
        match FindColumn(columns, XShiftKeywords)
        case Failure(e) => Failure(e)
        case Success(x) =>
          match FindColumn(columns, YShiftKeywords)
          case Failure(e) => Failure(e)
          case Success(y) => Success(ColumnLayout(t, z, x, y))
  }

  /** A missing column is reported with the keywords of the first of the four lookups that fails. */
  lemma LayoutFailureNamesFirstMissing(columns: seq<string>)
    requires FindLayout(columns).Failure?
    ensures var e := FindLayout(columns).error;
      if FindColumn(columns, TiltKeywords).Failure? then e == ColumnNotFound(TiltKeywords)
      else if FindColumn(columns, ZRotKeywords).Failure? then e == ColumnNotFound(ZRotKeywords)
      else if FindColumn(columns, XShiftKeywords).Failure? then e == ColumnNotFound(XShiftKeywords)
      else e == ColumnNotFound(YShiftKeywords)
  {
  }

  /** Every column of a found layout carries its keyword, case-insensitively, in its label, and no
      earlier column does. */
  lemma LayoutColumnsMatch(columns: seq<string>)
    requires FindLayout(columns).Success?
    ensures var l := FindLayout(columns).value;
      && l.tilt < |columns| && l.zrot < |columns| && l.dx < |columns| && l.dy < |columns|
      && LabelMatches(columns[l.tilt], "TomoYTilt")
      && LabelMatches(columns[l.zrot], "TomoZRot")
      && LabelMatches(columns[l.dx], "TomoXShiftAngst")
      && LabelMatches(columns[l.dy], "TomoYShiftAngst")
      && (forall c :: 0 <= c < l.tilt ==> !LabelMatches(columns[c], "TomoYTilt"))
      && (forall c :: 0 <= c < l.zrot ==> !LabelMatches(columns[c], "TomoZRot"))
      && (forall c :: 0 <= c < l.dx ==> !LabelMatches(columns[c], "TomoXShiftAngst"))
      && (forall c :: 0 <= c < l.dy ==> !LabelMatches(columns[c], "TomoYShiftAngst"))
  {
    var l := FindLayout(columns).value;
    FirstHitSingle(columns, TiltKeywords, l.tilt);
    FirstHitSingle(columns, ZRotKeywords, l.zrot);
    FirstHitSingle(columns, XShiftKeywords, l.dx);
    FirstHitSingle(columns, YShiftKeywords, l.dy);
  }

  /** With a single keyword, the column found is the first one whose label contains it. */
  lemma FirstHitSingle(columns: seq<string>, keywords: seq<string>, c: nat)
    requires |keywords| == 1
    requires FindColumn(columns, keywords) == Success(c)
    ensures c < |columns| && LabelMatches(columns[c], keywords[0])
    ensures forall c' :: 0 <= c' < c ==> !LabelMatches(columns[c'], keywords[0])
  {
    FindColumnIsFirstHit(columns, keywords);
    var k :| 0 <= k < |keywords| && IsFirstHit(columns, keywords, k, c);
  }

  /** A layout whose four positions are all columns of a table `width` wide. */
  predicate LayoutFits(l: ColumnLayout, width: nat)
  {
    l.tilt < width && l.zrot < width && l.dx < width && l.dy < width
  }

  /** One table row read through layout `l`: the tilt multiplied by `tiltSign`, every other value
      copied from its column. */
  function ReadRow(cells: seq<real>, l: ColumnLayout, tiltSign: real): (p: ProjectionRow)
    requires LayoutFits(l, |cells|)
    ensures p.ytilt == cells[l.tilt] * tiltSign
    ensures p.zrot == cells[l.zrot] && p.dxAng == cells[l.dx] && p.dyAng == cells[l.dy]
  {
    ProjectionRow(cells[l.tilt] * tiltSign, cells[l.zrot], cells[l.dx], cells[l.dy])
  }

  /** `rows` are the rows of a `width`-wide `table` read through layout `l`, one per table row and
      in order. */
  ghost predicate ReadThrough(table: seq<seq<real>>, width: nat, l: ColumnLayout, tiltSign: real, rows: seq<ProjectionRow>)
  {
    && LayoutFits(l, width)
    && |rows| == |table|
    && forall i :: 0 <= i < |table| && |table[i]| == width ==> rows[i] == ReadRow(table[i], l, tiltSign)
  }

  /** `parse_relion_projections` on a loaded table (`table[i][c]` is row i, column c): one projection
      row per table row, in order, each read through the columns found by label. */
  function ParseProjections(columns: seq<string>, table: seq<seq<real>>, tiltSign: real): (r: Result<seq<ProjectionRow>, ColumnError>)
    requires forall i :: 0 <= i < |table| ==> |table[i]| == |columns|
    ensures r.Success? <==> FindLayout(columns).Success?
    ensures r.Failure? ==> r.error == FindLayout(columns).error
    ensures r.Success? ==> ReadThrough(table, |columns|, FindLayout(columns).value, tiltSign, r.value)
  {
    var found := FindLayout(columns);
    if found.Failure? then Failure(found.error)
    else Success(ReadAll(table, |columns|, found.value, tiltSign))
  }

  /** Every table row read through the layout `l`, in order. */
  function ReadAll(table: seq<seq<real>>, width: nat, l: ColumnLayout, tiltSign: real): (r: seq<ProjectionRow>)
    requires forall i :: 0 <= i < |table| ==> |table[i]| == width
    requires LayoutFits(l, width)
    ensures ReadThrough(table, width, l, tiltSign, r)
  {
    if |table| == 0 then []
    else
      var rest := ReadAll(table[1..], width, l, tiltSign);
      var r := [ReadRow(table[0], l, tiltSign)] + rest;
      assert forall i :: 1 <= i < |table| ==> r[i] == rest[i - 1] && table[i] == table[1..][i - 1];
      r
  }

  /** Matching ignores case on both sides: a label matches exactly when its lower-case form does. */
  lemma LabelMatchIgnoresCase(column: string, keyword: string)
    ensures LabelMatches(column, keyword) <==> LabelMatches(LowerString(column), LowerString(keyword))
  {
    LowerIdempotent(column);
    LowerIdempotent(keyword);
  }

  lemma LowerIdempotent(s: string)
    ensures LowerString(LowerString(s)) == LowerString(s)
  {
  }
}
