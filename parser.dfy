/**
  `parse_matrix(matrix_str, rows, cols)`: the text is split into lines,
  blank lines are dropped, the line count is checked against `rows`, each
  line is split into tokens that are converted to numbers, and each row's
  length is checked against `cols`. Every failure surfaces as a ValueError
  whose message starts with "Error parsing matrix: ".
*/
module MatrixParser {
  import opened Wrappers
  import opened Text
  import opened Decimal
  import opened LinearAlgebra

  /** Python's `float(token)`: the number the token denotes, or None where
      `float` raises. Which tokens it accepts is not modelled. */
  type Converter = string -> Option<real>

  /** Why parsing failed; the ValueError's message is `Message(e)`. */
  datatype ParseError =
    | RowCount(expected: int, got: nat)
    | ColumnCount(expected: int, got: nat)
    | NotANumber(token: string)

  const Prefix := "Error parsing matrix: "

  const Expected := "Expected "
  const RowsGot := " rows, got "
  const ColumnsGot := " columns in each row, got "
  const NoFloat := "could not convert string to float: '"

  /** The text of the exception that the handler wraps. It determines the
      error: reading it back gives the kind, the counts and the token. */
  function Reason(e: ParseError): (r: string)
    ensures ReadReason(r) == Some(e)
  {
    match e
    case RowCount(rows, n) =>
      ReasonOfCount(rows, RowsGot, n);
      Expected + (IntToString(rows) + (RowsGot + NatToString(n)))
    case ColumnCount(cols, m) =>
      ReasonOfCount(cols, ColumnsGot, m);
      Expected + (IntToString(cols) + (ColumnsGot + NatToString(m)))
    case NotANumber(t) =>
      var s := NoFloat + t + "'";
      assert !StartsWith(s, Expected) by {
        assert s[0] == 'c';
      }
      assert s[..|NoFloat|] == NoFloat;
      assert s[|NoFloat|..|s| - 1] == t;
      s
  }

  /** The message of the ValueError that `parse_matrix` raises. */
  function Message(e: ParseError): (m: string)
    ensures StartsWith(m, Prefix) && m[|Prefix|..] == Reason(e)
  {
    Prefix + Reason(e)
  }

  // ---------------------------------------------------------------------
  // Reading an error back from its message.

  /** The length of the run of digits that starts `s`. */
  function DigitRun(s: string): (k: nat)
    ensures k <= |s| && AllDigits(s[..k]) && (k == |s| || !IsDigit(s[k]))
  {
    if s == [] || !IsDigit(s[0]) then 0
    else
      var k := 1 + DigitRun(s[1..]);
      assert s[..k] == [s[0]] + s[1..][..k - 1];
      k
  }

  /** The length of the integer, `-` included, that starts `s`. */
  function IntRun(s: string): (k: nat)
    ensures k <= |s|
  {
    if s != [] && s[0] == '-' then 1 + DigitRun(s[1..]) else DigitRun(s)
  }

  /** A count that runs to the end of the text. */
  function ReadNat(s: string): Option<nat> {
    if s != [] && AllDigits(s) then Some(DigitsValue(s)) else None
  }

  /** The error a reason text reports, or `None` if the text is no reason. */
  function ReadReason(s: string): Option<ParseError> {
    if StartsWith(s, Expected) then ReadCounts(s[|Expected|..])
    else if StartsWith(s, NoFloat) && |s| > |NoFloat| && s[|s| - 1] == '\'' then
      Some(NotANumber(s[|NoFloat|..|s| - 1]))
    else None
  }

  /** What follows "Expected ": the expected count, then the rest. */
  function ReadCounts(t: string): Option<ParseError> {
    var k := IntRun(t);
    match ReadInt(t[..k])
    case None => None
    case Some(expected) => ReadGot(expected, t[k..])
  }

  /** What follows the expected count: which count it was, and the count found. */
  function ReadGot(expected: int, tail: string): Option<ParseError> {
    if StartsWith(tail, RowsGot) then
      match ReadNat(tail[|RowsGot|..])
      case None => None
      case Some(got) => Some(RowCount(expected, got))
    else if StartsWith(tail, ColumnsGot) then
      match ReadNat(tail[|ColumnsGot|..])
      case None => None
      case Some(got) => Some(ColumnCount(expected, got))
    else None
  }

  lemma {:induction false} DigitRunOf(d: string, rest: string)
    requires AllDigits(d)
    requires rest == [] || !IsDigit(rest[0])
    ensures DigitRun(d + rest) == |d|
    decreases |d|
  {
    if d != [] {
      assert (d + rest)[1..] == d[1..] + rest;
      DigitRunOf(d[1..], rest);
    }
  }

  /** `str(i)` followed by a space is read up to the space. */
  lemma IntRunOf(i: int, rest: string)
    requires rest != [] && rest[0] == ' '
    ensures IntRun(IntToString(i) + rest) == |IntToString(i)|
  {
    var s := IntToString(i) + rest;
    if i < 0 {
      var d := NatToString(-i);
      assert s == "-" + (d + rest);
      assert s[1..] == d + rest;
      DigitRunOf(d, rest);
    } else {
      var d := NatToString(i);
      assert d[0] != '-';
      DigitRunOf(d, rest);
    }
  }

  lemma ReadNatOf(n: nat)
    ensures ReadNat(NatToString(n)) == Some(n)
  {
    NatToStringReadsBack(n);
  }

  lemma ReadCountsOf(expected: int, rest: string)
    requires rest != [] && rest[0] == ' '
    ensures ReadCounts(IntToString(expected) + rest) == ReadGot(expected, rest)
  {
    var e := IntToString(expected);
    var t := e + rest;
    IntRunOf(expected, rest);
    assert t[..|e|] == e;
    assert t[|e|..] == rest;
    IntToStringReadsBack(expected);
  }

  lemma ReadGotOf(expected: int, middle: string, got: nat)
    requires middle == RowsGot || middle == ColumnsGot
    ensures ReadGot(expected, middle + NatToString(got)) ==
      Some(if middle == RowsGot then RowCount(expected, got) else ColumnCount(expected, got))
  {
    var tail := middle + NatToString(got);
    assert tail[..|middle|] == middle;
    assert tail[|middle|..] == NatToString(got);
    ReadNatOf(got);
    if middle == ColumnsGot {
      assert !StartsWith(tail, RowsGot) by {
        assert tail[1] == ColumnsGot[1] != RowsGot[1];
      }
    }
  }

  lemma ReasonOfCount(expected: int, middle: string, got: nat)
    requires middle == RowsGot || middle == ColumnsGot
    ensures ReadReason(Expected + (IntToString(expected) + (middle + NatToString(got)))) ==
      Some(if middle == RowsGot then RowCount(expected, got) else ColumnCount(expected, got))
  {
    var rest := middle + NatToString(got);
    ReadAfterExpected(IntToString(expected) + rest);
    ReadCountsOf(expected, rest);
    ReadGotOf(expected, middle, got);
  }

  lemma ReadAfterExpected(t: string)
    ensures ReadReason(Expected + t) == ReadCounts(t)
  {
    var s := Expected + t;
    assert s[..|Expected|] == Expected;
    assert s[|Expected|..] == t;
  }

  /** Different errors give different messages. */
  lemma MessageDeterminesError(e1: ParseError, e2: ParseError)
    requires Message(e1) == Message(e2)
    ensures e1 == e2
  {
    assert Reason(e1) == Message(e1)[|Prefix|..];
  }

  // ---------------------------------------------------------------------
  // The specification functions.

  /** A non-empty string with no whitespace at either end. */
  predicate Stripped(s: string) {
    s != [] && !IsSpace(s[0]) && !IsSpace(s[|s| - 1])
  }

  /** The stripped pieces that are not blank, in order. */
  function KeepNonBlank(pieces: seq<string>): seq<string> {
    if pieces == [] then []
    else
      var s := Strip(pieces[0]);
      var rest := KeepNonBlank(pieces[1..]);
      if s == [] then rest else [s] + rest
  }

  /** Every kept line is non-empty and has no whitespace at either end. */
  lemma {:induction false} KeepNonBlankStripped(pieces: seq<string>)
    ensures forall i :: 0 <= i < |KeepNonBlank(pieces)| ==> Stripped(KeepNonBlank(pieces)[i])
    decreases |pieces|
  {
    if pieces != [] {
      var s := Strip(pieces[0]);
      var rest := KeepNonBlank(pieces[1..]);
      KeepNonBlankStripped(pieces[1..]);
      if s != [] {
        var kept := [s] + rest;
        assert KeepNonBlank(pieces) == kept;
        forall i | 0 <= i < |kept| ensures Stripped(kept[i]) {
          if i > 0 {
            assert kept[i] == rest[i - 1];
          }
        }
      }
    }
  }

  /** A character that no piece holds is in no kept line. */
  lemma {:induction false} KeepNonBlankAvoids(pieces: seq<string>, ch: char)
    requires AllAvoid(pieces, ch)
    ensures AllAvoid(KeepNonBlank(pieces), ch)
    decreases |pieces|
  {
    if pieces != [] {
      var s := Strip(pieces[0]);
      var rest := KeepNonBlank(pieces[1..]);
      assert AllAvoid(pieces[1..], ch) by {
        forall i | 0 <= i < |pieces[1..]| ensures Avoids(pieces[1..][i], ch) {
          assert pieces[1..][i] == pieces[i + 1];
        }
      }
      KeepNonBlankAvoids(pieces[1..], ch);
      if s != [] {
        assert Avoids(pieces[0], ch);
        StripAvoids(pieces[0], ch);
        AllAvoidCons(s, rest, ch);
      }
    }
  }

  /** The lines of `text` that `parse_matrix` keeps: none is blank, none has
      whitespace at either end and none holds a newline. */
  function NonBlankLines(text: string): (lines: seq<string>)
    ensures forall i :: 0 <= i < |lines| ==> Stripped(lines[i]) && Avoids(lines[i], '\n')
  {
    var pieces := SplitOn(Strip(text), "\n");
    KeepNonBlankStripped(pieces);
    KeepNonBlankAvoids(pieces, '\n');
    KeepNonBlank(pieces)
  }

  /** `[float(num) for num in tokens]`: all the values, or the index of the
      first token that `float` rejects. */
  function ConvertAll(tokens: seq<string>, float: Converter): (r: Result<seq<real>, nat>)
    ensures r.Success? ==>
      |r.value| == |tokens| && forall j :: 0 <= j < |tokens| ==> float(tokens[j]) == Some(r.value[j])
    ensures r.Failure? ==>
      r.error < |tokens| && float(tokens[r.error]).None? &&
      forall k :: 0 <= k < r.error ==> float(tokens[k]).Some?
  {
    if tokens == [] then Success([])
    else
      match float(tokens[0])
      case None => Failure(0)
      case Some(x) =>
        match ConvertAll(tokens[1..], float)
        case Failure(j) => Failure(j + 1)
        case Success(xs) => Success([x] + xs)
  }

  /** One line becomes one row: convert every token, then check the count. */
  function ParseRow(line: string, cols: int, float: Converter): (r: Result<seq<real>, ParseError>)
    ensures r.Success? <==> WellFormedRow(line, cols, float)
    ensures r.Success? ==>
      |r.value| == |Tokens(line)| && forall j :: 0 <= j < |r.value| ==> float(Tokens(line)[j]) == Some(r.value[j])
  {
    var tokens := Tokens(line);
    match ConvertAll(tokens, float)
    case Failure(j) => Failure(NotANumber(tokens[j]))
    case Success(elements) =>
      if |elements| != cols then Failure(ColumnCount(cols, |elements|)) else Success(elements)
  }

  /** The rows of `lines`, or the error of the first line that fails. */
  function ParseLines(lines: seq<string>, cols: int, float: Converter): Result<Matrix, ParseError> {
    if lines == [] then Success([])
    else
      match ParseRow(lines[0], cols, float)
      case Failure(e) => Failure(e)
      case Success(row) =>
        match ParseLines(lines[1..], cols, float)
        case Failure(e) => Failure(e)
        case Success(m) => Success([row] + m)
  }

  /** What `parse_matrix(text, rows, cols)` returns or raises. */
  function Parse(text: string, rows: int, cols: int, float: Converter): Result<Matrix, ParseError> {
    var lines := NonBlankLines(text);
    if |lines| != rows then Failure(RowCount(rows, |lines|))
    else ParseLines(lines, cols, float)
  }

  /** A line that becomes a row of `cols` numbers. */
  predicate WellFormedRow(line: string, cols: int, float: Converter) {
    var tokens := Tokens(line);
    |tokens| == cols && forall j :: 0 <= j < |tokens| ==> float(tokens[j]).Some?
  }

  // ---------------------------------------------------------------------
  // The implementation: a loop that appends one row per line.

  method ParseMatrix(text: string, rows: int, cols: int, float: Converter)
    returns (r: Result<Matrix, ParseError>)
    ensures r == Parse(text, rows, cols, float)
  {
    var lines := NonBlankLines(text);
    if |lines| != rows {
      return Failure(RowCount(rows, |lines|));
    }
    r := ParseRows(lines, cols, float);
  }

  /** The `for line in lines` loop: convert each line and append its row,
      stopping at the first line that fails. */
  method ParseRows(lines: seq<string>, cols: int, float: Converter)
    returns (r: Result<Matrix, ParseError>)
    ensures r == ParseLines(lines, cols, float)
  {
    var matrix: Matrix := [];
    for i := 0 to |lines|
      invariant |matrix| == i
      invariant forall k :: 0 <= k < i ==> ParseRow(lines[k], cols, float) == Success(matrix[k])
    {
      var tokens := Tokens(lines[i]);
      var converted := ConvertAll(tokens, float);
      if converted.Failure? {
        assert ParseRow(lines[i], cols, float) == Failure(NotANumber(tokens[converted.error]));
        ParseLinesFirstFailure(lines, cols, float, i);
        return Failure(NotANumber(tokens[converted.error]));
      }
      var elements := converted.value;
      if |elements| != cols {
        assert ParseRow(lines[i], cols, float) == Failure(ColumnCount(cols, |elements|));
        ParseLinesFirstFailure(lines, cols, float, i);
        return Failure(ColumnCount(cols, |elements|));
      }
      assert ParseRow(lines[i], cols, float) == Success(elements);
      matrix := matrix + [elements];
    }
    ParseLinesRows(lines, cols, float);
    assert ParseLines(lines, cols, float).value == matrix;
    return Success(matrix);
  }

  // ---------------------------------------------------------------------
  // Rows are processed in order; the first failing row decides.

  /** `ParseLines` succeeds exactly when every line parses, and then row `k`
      is the parse of line `k`. */
  lemma {:induction false} ParseLinesRows(lines: seq<string>, cols: int, float: Converter)
    ensures ParseLines(lines, cols, float).Success? <==>
      forall k :: 0 <= k < |lines| ==> ParseRow(lines[k], cols, float).Success?
    ensures ParseLines(lines, cols, float).Success? ==>
      var m := ParseLines(lines, cols, float).value;
      |m| == |lines| && forall k :: 0 <= k < |lines| ==> ParseRow(lines[k], cols, float) == Success(m[k])
    decreases |lines|
  {
    if lines != [] {
      ParseLinesRows(lines[1..], cols, float);
      assert forall k :: 0 < k < |lines| ==> lines[k] == lines[1..][k - 1];
    }
  }

  /** When lines before `i` parse and line `i` does not, its error is the result. */
  lemma {:induction false} ParseLinesFirstFailure(lines: seq<string>, cols: int, float: Converter, i: nat)
    requires i < |lines|
    requires forall k :: 0 <= k < i ==> ParseRow(lines[k], cols, float).Success?
    requires ParseRow(lines[i], cols, float).Failure?
    ensures ParseLines(lines, cols, float) == Failure(ParseRow(lines[i], cols, float).error)
    decreases i
  {
    if i > 0 {
      assert forall k :: 0 <= k < i - 1 ==> lines[1..][k] == lines[k + 1];
      ParseLinesFirstFailure(lines[1..], cols, float, i - 1);
    }
  }

  /** Within a row every token is converted before the count is checked: the
      first token `float` rejects decides, whatever the count; only a row of
      numbers can fail on its count. */
  lemma ParseRowCases(line: string, cols: int, float: Converter)
    ensures forall j ::
      (0 <= j < |Tokens(line)| && float(Tokens(line)[j]).None? &&
       forall k :: 0 <= k < j ==> float(Tokens(line)[k]).Some?) ==>
      ParseRow(line, cols, float) == Failure(NotANumber(Tokens(line)[j]))
    ensures (forall j :: 0 <= j < |Tokens(line)| ==> float(Tokens(line)[j]).Some?) && |Tokens(line)| != cols ==>
      ParseRow(line, cols, float) == Failure(ColumnCount(cols, |Tokens(line)|))
  {
  }

  // ---------------------------------------------------------------------
  // What `parse_matrix` promises.

  /** It succeeds exactly when there are `rows` non-blank lines, each of
      `cols` numbers; the result then has `rows` rows of `cols` entries, and
      entry (i, j) is the j-th token of the i-th non-blank line. */
  lemma ParseSucceeds(text: string, rows: int, cols: int, float: Converter)
    ensures var lines := NonBlankLines(text);
      Parse(text, rows, cols, float).Success? <==>
        |lines| == rows && forall i :: 0 <= i < |lines| ==> WellFormedRow(lines[i], cols, float)
    ensures var lines := NonBlankLines(text);
      Parse(text, rows, cols, float).Success? ==>
        var m := Parse(text, rows, cols, float).value;
        |m| == rows &&
        forall i :: 0 <= i < |m| ==>
          |m[i]| == cols && |Tokens(lines[i])| == cols &&
          forall j :: 0 <= j < cols ==> float(Tokens(lines[i])[j]) == Some(m[i][j])
  {
    var lines := NonBlankLines(text);
    ParseLinesRows(lines, cols, float);
    forall i | 0 <= i < |lines| {
      ParseRowCases(lines[i], cols, float);
    }
  }

  /** The line count is checked first, before any token is converted. */
  lemma RowCountFirst(text: string, rows: int, cols: int, float: Converter)
    requires |NonBlankLines(text)| != rows
    ensures Parse(text, rows, cols, float) == Failure(RowCount(rows, |NonBlankLines(text)|))
  {
  }

  /** With the right line count, the first line that is not a well-formed row
      decides the error. */
  lemma FirstBadRowDecides(text: string, rows: int, cols: int, float: Converter, i: nat)
    requires var lines := NonBlankLines(text);
      |lines| == rows && i < |lines| && !WellFormedRow(lines[i], cols, float) &&
      forall k :: 0 <= k < i ==> WellFormedRow(lines[k], cols, float)
    ensures ParseRow(NonBlankLines(text)[i], cols, float).Failure? &&
      Parse(text, rows, cols, float) == Failure(ParseRow(NonBlankLines(text)[i], cols, float).error)
  {
    var lines := NonBlankLines(text);
    forall k | 0 <= k <= i {
      ParseRowCases(lines[k], cols, float);
    }
    ParseLinesFirstFailure(lines, cols, float, i);
  }

  // ---------------------------------------------------------------------
  // Blank lines anywhere are ignored.

  function Lines(s: string): seq<string> {
    KeepNonBlank(SplitOn(s, "\n"))
  }

  lemma {:induction false} KeepNonBlankConcat(x: seq<string>, y: seq<string>)
    ensures KeepNonBlank(x + y) == KeepNonBlank(x) + KeepNonBlank(y)
    decreases |x|
  {
    if x == [] {
      assert x + y == y;
    } else {
      assert (x + y)[0] == x[0];
      assert (x + y)[1..] == x[1..] + y;
      KeepNonBlankConcat(x[1..], y);
    }
  }

  lemma KeepNonBlankSameFirst(p: string, q: string, tail: seq<string>)
    requires Strip(p) == Strip(q)
    ensures KeepNonBlank([p] + tail) == KeepNonBlank([q] + tail)
  {
    assert ([p] + tail)[1..] == tail;
    assert ([q] + tail)[1..] == tail;
  }

  lemma LinesDropLeadingSpace(s: string)
    requires s != [] && IsSpace(s[0])
    ensures Lines(s) == Lines(s[1..])
  {
    var sep := "\n";
    var rest := SplitOn(s[1..], sep);
    if s[0] == '\n' {
      assert StartsWith(s, sep);
      assert SplitOn(s, sep) == [""] + rest;
      KeepNonBlankConcat([""], rest);
      KeepNonBlankOne("");
    } else {
      assert !StartsWith(s, sep);
      SplitOnNoSep(s, sep);
      StripConsSpace(s[0], rest[0]);
      HeadTail(rest);
      KeepNonBlankSameFirst([s[0]] + rest[0], rest[0], rest[1..]);
    }
  }

  lemma KeepNonBlankOne(p: string)
    ensures KeepNonBlank([p]) == if Strip(p) == [] then [] else [Strip(p)]
  {
    assert [p][1..] == [];
  }

  lemma LinesSnocNewline(x: string)
    ensures Lines(x + "\n") == Lines(x)
  {
    SplitOnConcat(x, "\n", "");
    assert x + "\n" + "" == x + "\n";
    assert SplitOn("", "\n") == [""];
    KeepNonBlankConcat(SplitOn(x, "\n"), [""]);
    KeepNonBlankOne("");
    assert KeepNonBlank(SplitOn(x, "\n")) + [] == KeepNonBlank(SplitOn(x, "\n"));
  }

  lemma KeepNonBlankSameLast(init: seq<string>, p: string, q: string)
    requires Strip(p) == Strip(q)
    ensures KeepNonBlank(init + [p]) == KeepNonBlank(init + [q])
  {
    KeepNonBlankConcat(init, [p]);
    KeepNonBlankConcat(init, [q]);
    KeepNonBlankOne(p);
    KeepNonBlankOne(q);
  }

  lemma LinesSnocSpace(x: string, c: char)
    requires IsSpace(c) && c != '\n'
    ensures Lines(x + [c]) == Lines(x)
  {
    var r := SplitOn(x, "\n");
    var init := r[..|r| - 1];
    var last := r[|r| - 1];
    SplitOnSnoc(x, "\n", c);
    StripSnocSpace(last, c);
    KeepNonBlankSameLast(init, last + [c], last);
    InitLast(r);
  }

  lemma LinesDropTrailingSpace(s: string)
    requires s != [] && IsSpace(s[|s| - 1])
    ensures Lines(s) == Lines(s[..|s| - 1])
  {
    var x := s[..|s| - 1];
    var c := s[|s| - 1];
    assert s == x + [c];
    if c == '\n' {
      assert s == x + "\n";
      LinesSnocNewline(x);
    } else {
      LinesSnocSpace(x, c);
    }
  }

  lemma {:induction false} LinesOfSpace(w: string)
    requires AllSpace(w)
    ensures Lines(w) == []
    decreases |w|
  {
    if w != [] {
      LinesDropLeadingSpace(w);
      LinesOfSpace(w[1..]);
    } else {
      assert SplitOn(w, "\n") == [""];
    }
  }

  lemma {:induction false} LinesTrimLeft(s: string)
    ensures Lines(TrimLeft(s)) == Lines(s)
    decreases |s|
  {
    if s != [] && IsSpace(s[0]) {
      LinesDropLeadingSpace(s);
      LinesTrimLeft(s[1..]);
    }
  }

  lemma {:induction false} LinesTrimRight(s: string)
    ensures Lines(TrimRight(s)) == Lines(s)
    decreases |s|
  {
    if s != [] && IsSpace(s[|s| - 1]) {
      LinesDropTrailingSpace(s);
      LinesTrimRight(s[..|s| - 1]);
    }
  }

  /** Stripping the whole text first changes nothing. */
  lemma OuterStripRedundant(text: string)
    ensures NonBlankLines(text) == Lines(text)
  {
    LinesTrimRight(TrimLeft(text));
    LinesTrimLeft(text);
  }

  /** A whitespace-only line between two newlines contributes no line. */
  lemma LinesBlankLine(before: string, blank: string, after: string)
    requires AllSpace(blank)
    ensures Lines(before + "\n" + blank + "\n" + after) == Lines(before + "\n" + after)
  {
    var sep := "\n";
    var b := SplitOn(before, sep);
    var w := SplitOn(blank, sep);
    var a := SplitOn(after, sep);
    assert before + sep + blank + sep + after == before + sep + (blank + sep + after);
    SplitOnConcat(before, sep, blank + sep + after);
    SplitOnConcat(blank, sep, after);
    SplitOnConcat(before, sep, after);
    KeepNonBlankConcat(b, w + a);
    KeepNonBlankConcat(w, a);
    KeepNonBlankConcat(b, a);
    LinesOfSpace(blank);
    assert KeepNonBlank(w) + KeepNonBlank(a) == KeepNonBlank(a);
  }

  /** Inserting a blank or whitespace-only line anywhere leaves the result
      of `parse_matrix` unchanged. */
  lemma BlankLineIgnored(before: string, blank: string, after: string, rows: int, cols: int, float: Converter)
    requires AllSpace(blank)
    ensures Parse(before + "\n" + blank + "\n" + after, rows, cols, float) ==
            Parse(before + "\n" + after, rows, cols, float)
  {
    LinesBlankLine(before, blank, after);
    OuterStripRedundant(before + "\n" + blank + "\n" + after);
    OuterStripRedundant(before + "\n" + after);
  }
}
