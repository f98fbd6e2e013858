/**
  `matrix_to_latex_str`: a matrix as the body of a LaTeX `bmatrix`, each
  entry written with two decimals, entries separated by ` & ` and rows by
  ` \\ `. A reader that takes the text apart again shows that nothing but
  the rounding to hundredths is lost.
*/
module Latex {
  import opened Wrappers
  import opened Text
  import opened Decimal
  import opened LinearAlgebra

  const Begin := @"\begin{bmatrix} "
  const RowSep := @" \\ "
  const ColSep := " & "
  const End := @" \end{bmatrix}"

  /** The entries of a row, each as `f"{x:.2f}"`. */
  function Cells(row: Vector): (cs: seq<string>)
    ensures |cs| == |row| && forall j :: 0 <= j < |row| ==> cs[j] == Fmt2(row[j])
  {
    seq(|row|, j requires 0 <= j < |row| => Fmt2(row[j]))
  }

  /** `" & ".join(f"{x:.2f}" for x in row)`: splitting it on ` & ` gives the
      cells back, so a row of `cols` entries holds `cols - 1` column
      separators, and it holds no backslash for ` \\ ` to start in. */
  function FormatRow(row: Vector): (t: string)
    ensures |row| >= 1 ==> SplitOn(t, ColSep) == Cells(row)
    ensures Avoids(t, '\\')
  {
    CellsSplit(row);
    CellsAvoidBackslash(row);
    Join(Cells(row), ColSep)
  }

  function RowTexts(m: Matrix): (ts: seq<string>)
    ensures |ts| == |m| && forall i :: 0 <= i < |m| ==> ts[i] == FormatRow(m[i])
  {
    seq(|m|, i requires 0 <= i < |m| => FormatRow(m[i]))
  }

  /** `matrix_to_latex_str(m)`. The source unpacks `matrix.shape` into rows and
      columns, which needs a two-dimensional array: at least one row, all of
      the same length. */
  function ToLatex(m: Matrix): (s: string)
    requires |m| >= 1 && Rectangular(m)
    ensures |s| >= |Begin| + |End| && s[..|Begin|] == Begin && s[|s| - |End|..] == End
  {
    Begin + Join(RowTexts(m), RowSep) + End
  }

  // ---------------------------------------------------------------------
  // Reading the text back.

  /** Each cell read as `[-]digits.dd`; `None` if any cell is not. */
  function ReadEntries(cells: seq<string>): Option<Vector> {
    if cells == [] then Some([])
    else
      match ReadFixed2(cells[0])
      case None => None
      case Some(x) =>
        match ReadEntries(cells[1..])
        case None => None
        case Some(xs) => Some([x] + xs)
  }

  /** Each row text split on ` & ` and read. */
  function ReadRows(texts: seq<string>): Option<Matrix> {
    if texts == [] then Some([])
    else
      match ReadEntries(SplitOn(texts[0], ColSep))
      case None => None
      case Some(row) =>
        match ReadRows(texts[1..])
        case None => None
        case Some(rows) => Some([row] + rows)
  }

  /** The text between the delimiters, split on ` \\ `. */
  function BodyRows(s: string): seq<string>
    requires |s| >= |Begin| + |End|
  {
    SplitOn(s[|Begin|..|s| - |End|], RowSep)
  }

  function ReadLatex(s: string): Option<Matrix> {
    if |s| >= |Begin| + |End| && s[..|Begin|] == Begin && s[|s| - |End|..] == End then
      ReadRows(BodyRows(s))
    else None
  }

  /** Every entry rounded to hundredths, as the text shows it. */
  function RoundedRow(row: Vector): (r: Vector)
    ensures |r| == |row|
  {
    seq(|row|, j requires 0 <= j < |row| => Rounded2(row[j]))
  }

  function RoundedMatrix(m: Matrix): (r: Matrix)
    ensures |r| == |m|
  {
    seq(|m|, i requires 0 <= i < |m| => RoundedRow(m[i]))
  }

  // ---------------------------------------------------------------------
  // The layout.

  lemma Fmt2Avoids(x: real, ch: char)
    requires ch != '-' && ch != '.' && !IsDigit(ch)
    ensures Avoids(Fmt2(x), ch)
  {
  }

  lemma CellsAvoidBackslash(row: Vector)
    ensures Avoids(Join(Cells(row), ColSep), '\\')
  {
    var cs := Cells(row);
    forall j | 0 <= j < |cs| ensures Avoids(cs[j], '\\') {
      Fmt2Avoids(row[j], '\\');
    }
    JoinAvoids(cs, ColSep, '\\');
  }

  lemma CellsSplit(row: Vector)
    ensures |row| >= 1 ==> SplitOn(Join(Cells(row), ColSep), ColSep) == Cells(row)
  {
    if |row| >= 1 {
      var cs := Cells(row);
      forall j | 0 <= j < |cs| ensures SepOnlyAfter(cs[j], ColSep) {
        Fmt2Avoids(row[j], ' ');
        SepOnlyAfterByChar(cs[j], ColSep, 0);
      }
      SplitOnJoin(cs, ColSep);
    }
  }

  /** Splitting the body on ` \\ ` gives the row texts back: `rows - 1` row
      separators, each row text its cells joined by ` & `. */
  lemma LatexLayout(m: Matrix)
    requires |m| >= 1 && Rectangular(m)
    ensures BodyRows(ToLatex(m)) == RowTexts(m)
    ensures |BodyRows(ToLatex(m))| == |m|
    ensures Width(m) >= 1 ==> forall i :: 0 <= i < |m| ==>
      |SplitOn(BodyRows(ToLatex(m))[i], ColSep)| == Width(m)
  {
    var ts := RowTexts(m);
    var body := Join(ts, RowSep);
    var s := ToLatex(m);
    assert s[|Begin|..|s| - |End|] == body;
    forall i | 0 <= i < |ts| ensures SepOnlyAfter(ts[i], RowSep) {
      SepOnlyAfterByChar(ts[i], RowSep, 1);
    }
    SplitOnJoin(ts, RowSep);
    if Width(m) >= 1 {
      forall i | 0 <= i < |m| ensures |SplitOn(ts[i], ColSep)| == Width(m) {
        assert |m[i]| == Width(m);
      }
    }
  }

  // ---------------------------------------------------------------------
  // The round trip.

  lemma {:induction false} ReadCells(row: Vector)
    ensures ReadEntries(Cells(row)) == Some(RoundedRow(row))
    decreases |row|
  {
    if row != [] {
      var cs := Cells(row);
      assert cs[1..] == Cells(row[1..]);
      Fmt2ReadsBack(row[0]);
      ReadCells(row[1..]);
      assert RoundedRow(row) == [Rounded2(row[0])] + RoundedRow(row[1..]);
    }
  }

  lemma {:induction false} ReadRowTexts(m: Matrix)
    requires forall i :: 0 <= i < |m| ==> |m[i]| >= 1
    ensures ReadRows(RowTexts(m)) == Some(RoundedMatrix(m))
    decreases |m|
  {
    if m != [] {
      var ts := RowTexts(m);
      assert ts[1..] == RowTexts(m[1..]);
      ReadCells(m[0]);
      ReadRowTexts(m[1..]);
      ReadRowsCons(ts, RoundedRow(m[0]), RoundedMatrix(m[1..]));
      RoundedMatrixCons(m);
    }
  }

  lemma ReadRowsCons(ts: seq<string>, row: Vector, rows: Matrix)
    requires ts != []
    requires ReadEntries(SplitOn(ts[0], ColSep)) == Some(row)
    requires ReadRows(ts[1..]) == Some(rows)
    ensures ReadRows(ts) == Some([row] + rows)
  {
  }

  lemma RoundedMatrixCons(m: Matrix)
    requires m != []
    ensures RoundedMatrix(m) == [RoundedRow(m[0])] + RoundedMatrix(m[1..])
  {
  }

  /** The LaTeX text of a matrix with at least one row and one column reads
      back as the matrix with every entry rounded to hundredths. */
  lemma LatexRoundTrip(m: Matrix)
    requires |m| >= 1 && Rectangular(m) && Width(m) >= 1
    ensures ReadLatex(ToLatex(m)) == Some(RoundedMatrix(m))
  {
    LatexLayout(m);
    ReadRowTexts(m);
  }

  /** Two matrices with the same LaTeX text agree once rounded to hundredths. */
  lemma LatexDeterminesRounded(m1: Matrix, m2: Matrix)
    requires |m1| >= 1 && Rectangular(m1) && Width(m1) >= 1
    requires |m2| >= 1 && Rectangular(m2) && Width(m2) >= 1
    requires ToLatex(m1) == ToLatex(m2)
    ensures RoundedMatrix(m1) == RoundedMatrix(m2)
  {
    LatexRoundTrip(m1);
    LatexRoundTrip(m2);
  }
}
