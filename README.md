# Matrix multiplication visualizer: the input pipeline in Dafny

The visualizer is a small desktop tool. It reads two matrices typed as text,
multiplies them and hands the numbers to an animation script. This project
models the logic in front of the animation, all of it in `main_gui.py`:

- `parse_matrix(matrix_str, rows, cols)` splits the text into lines and drops
  blank ones. It checks the line count, splits each line into tokens, converts
  them with `float` and checks each row's length. Every failure is re-raised as
  a `ValueError` whose message starts with `Error parsing matrix: `.
  `MatrixParser.ParseMatrix` and its loop `MatrixParser.ParseRows` are
  methods. They are proved equal to the specification functions
  `MatrixParser.Parse` and `MatrixParser.ParseLines`. The properties are
  proved about those functions.
- `matrix_to_latex_str(matrix)` writes a LaTeX `bmatrix`. Each entry is written
  as `f"{x:.2f}"`, entries are joined by ` & ` and rows by ` \\ `. The model is
  `Latex.ToLatex`. A reader, `Latex.ReadLatex`, takes the text apart again.
  The round trip proves that the text has one piece per row and one cell per
  entry, and that only the rounding to hundredths is lost.
- The product `np.dot(matrix2, matrix1)` is B·A for A = matrix1 and
  B = matrix2. It is `LinearAlgebra.Product(b, a)` over exact reals. The model
  proves that it is the composition "apply A, then B". It also proves that
  the arrows the scene draws after B (lines 90-91) are the columns of the
  product.
- `calculate_matrices()` is modelled by `Visualizer.CalculateMatrices`. It
  covers the 2×2 gate, the two parses in order, the product and the numbers
  of the scene.

Modules:

- `Wrappers`: `Option` and `Result`.
- `Text`: Python's whitespace, `strip`, `split('\n')`, `split()` and `join`.
- `Decimal`: `str(int)`, and `f"{x:.2f}"` with a reader for it.
- `LinearAlgebra`: the product.
- `MatrixParser`: `parse_matrix`.
- `Latex`: `matrix_to_latex_str`.
- `Visualizer`: `calculate_matrices` and the scene.

Python's `float(token)` is a parameter, `Converter = string -> Option<real>`.
It returns `None` where `float` raises. Which tokens it accepts is not
modelled.

The operand order matters. The code computes `np.dot(matrix2, matrix1)`,
which for A = [[1,2],[3,4]] and B = [[0,1],[1,0]] is [[3,4],[1,2]], while A·B
would be [[2,1],[4,3]]. `LinearAlgebra.ProductOrderMatters` proves both values.

## Model

| member | source | states |
|---|---|---|
| MatrixParser.ParseMatrix | main_gui.py:13-30 | `parse_matrix` returns exactly what `Parse` specifies. A wrong number of non-blank lines fails before any line is converted. |
| MatrixParser.ParseRows | main_gui.py:22-28 | The loop that appends one row per line returns exactly `ParseLines`. Its invariant: every row appended so far is its line's tokens converted. It stops at the first line that fails. |
| MatrixParser.ParseSucceeds | main_gui.py:19-28 | Parsing succeeds if and only if there are `rows` non-blank lines, each of `cols` convertible tokens. The result then has `rows` rows of `cols` entries. Entry (i, j) is the j-th token of the i-th non-blank line, converted. |
| MatrixParser.RowCountFirst | main_gui.py:19-20 | A wrong number of non-blank lines fails with RowCount(rows, n), whatever the lines hold. |
| MatrixParser.ParseRow | main_gui.py:23-25 | A line becomes a row exactly when all its tokens convert and there are `cols` of them. The row then holds the converted tokens, in order. |
| MatrixParser.ParseRowCases | main_gui.py:23-25 | The first unconvertible token decides the error before the count is checked. A row of numbers with the wrong count fails with ColumnCount. |
| MatrixParser.FirstBadRowDecides | main_gui.py:19-26 | With the right line count, the first line that is not a well-formed row decides the error. |
| MatrixParser.ParseLinesFirstFailure | main_gui.py:22-26 | Rows are processed in order. The first failing row's error is the result. |
| MatrixParser.ParseLinesRows | main_gui.py:22-28 | On success there is one row per line, in order, and each row is that line's parse. |
| MatrixParser.ConvertAll | main_gui.py:23 | On success every token is converted, in order. On failure the reported index is the first token `float` rejects. |
| MatrixParser.Message | main_gui.py:29-30 | Every error message is "Error parsing matrix: " followed by the reason. |
| MatrixParser.Reason | main_gui.py:20 | The reason text determines the error. `ReadReason` reads back its kind, the expected and found counts, and the token `float` rejected (lines 20, 25 and the conversion error). |
| MatrixParser.MessageDeterminesError | main_gui.py:29-30 | Two errors with the same message are the same error. |
| MatrixParser.NonBlankLines | main_gui.py:17 | Every kept line is non-empty, has no whitespace at either end and holds no newline. |
| MatrixParser.KeepNonBlankStripped | main_gui.py:17 | Every kept line is non-empty and has no whitespace at either end. |
| MatrixParser.BlankLineIgnored | main_gui.py:17 | Inserting a blank or whitespace-only line between two lines does not change the result of parsing. |
| MatrixParser.LinesBlankLine | main_gui.py:17 | A whitespace-only line between two newlines contributes no kept line. |
| MatrixParser.OuterStripRedundant | main_gui.py:17 | Stripping the whole text before splitting does not change the kept lines. |
| MatrixParser.LinesOfSpace | main_gui.py:17 | Text made only of whitespace has no kept lines. |
| MatrixParser.LinesTrimLeft | main_gui.py:17 | Leading whitespace, newlines included, does not change the kept lines. |
| MatrixParser.LinesTrimRight | main_gui.py:17 | Trailing whitespace, newlines included, does not change the kept lines. |
| MatrixParser.KeepNonBlankConcat | main_gui.py:17 | Filtering blank lines distributes over concatenation of the line lists. |
| Text.Strip | main_gui.py:17 | `str.strip()` gives an empty result exactly when the text is all whitespace. Otherwise the result starts and ends with a non-whitespace character. |
| Text.TrimLeft | main_gui.py:17 | The result is a suffix of the input. What it removes is all whitespace. The result is empty or starts with non-whitespace. |
| Text.TrimRight | main_gui.py:17 | The result is a prefix of the input. What it removes is all whitespace. The result is empty or ends with non-whitespace. |
| Text.SplitOn | main_gui.py:17 | `split(sep)` gives at least one piece. With a one-character separator such as `'\n'`, no piece contains it. `JoinSplitOn` is its inverse. |
| Text.Join | main_gui.py:35-36 | `sep.join(xs)` starts with the first piece. `SplitOnJoin` is its inverse. |
| Text.JoinSplitOn | main_gui.py:17 | Joining the pieces of `split(sep)` with `sep` gives the text back. |
| Text.SplitOnConcat | main_gui.py:17 | Splitting on a one-character separator distributes over text joined by that separator. |
| Text.SplitOnSnoc | main_gui.py:17 | Appending a character other than the separator extends only the last piece. |
| Text.StripSnocSpace | main_gui.py:17 | Appending whitespace does not change a stripped line. |
| Text.Tokens | main_gui.py:23 | `str.split()` gives non-empty tokens without whitespace. `TokensAtSpace`, `TokensOfWord` and `TokensOfSpace` determine it on every text. |
| Text.TokensAtSpace | main_gui.py:23 | A whitespace character splits a line into halves whose tokens are concatenated: `(x + c + y).split() == x.split() + y.split()`. |
| Text.TokensOfWord | main_gui.py:23 | A non-empty word without whitespace is a single token. |
| Text.TokensOfSpace | main_gui.py:23 | Text made only of whitespace has no tokens. |
| Text.TokensOfJoin | main_gui.py:23 | Splitting tokens joined by single spaces gives the tokens back. |
| Text.SplitOnJoin | main_gui.py:36 | Splitting `sep.join(xs)` on `sep` gives `xs` back when no piece lets `sep` start inside it. |
| Decimal.NatToString | main_gui.py:20 | `str(n)` is a non-empty string of digits with no leading zero. |
| Decimal.IntToStringReadsBack | main_gui.py:20 | `str(i)` reads back as `i`, for every integer, negative ones included. |
| Decimal.RoundHalfEven | main_gui.py:35 | The result is within one half of the argument. Ties go to the even integer. |
| Decimal.Fmt2 | main_gui.py:35 | `f"{x:.2f}"` ends with a point followed by exactly two digits. It holds only digits, '-' and '.'. |
| Decimal.Fmt2ReadsBack | main_gui.py:35 | The text of `f"{x:.2f}"` reads back as x rounded to hundredths. |
| Decimal.Rounded2Error | main_gui.py:35 | Rounding to hundredths moves an entry by at most 0.005. An entry that is a whole number of hundredths does not move. |
| Latex.ToLatex | main_gui.py:32-36 | The text starts with `\begin{bmatrix} ` and ends with ` \end{bmatrix}`. The input must have at least one row, all of one length. |
| Latex.LatexLayout | main_gui.py:35-36 | Between the delimiters, splitting on ` \\ ` gives one row text per row, so there are rows−1 row separators. Each row text splits on ` & ` into one cell per column, so there are cols−1 column separators. |
| Latex.FormatRow | main_gui.py:35 | A row text of at least one entry splits on ` & ` back into the two-decimal texts of its entries. It holds no backslash. |
| Latex.LatexRoundTrip | main_gui.py:32-36 | Reading back the LaTeX of a matrix with at least one row and one column gives the matrix with every entry rounded to hundredths. |
| Latex.LatexDeterminesRounded | main_gui.py:32-36 | Two matrices with the same LaTeX agree entry by entry once rounded to hundredths. |
| LinearAlgebra.Product | main_gui.py:42 | `np.dot(matrix2, matrix1)` has as many rows as matrix2 and as many columns as matrix1. |
| LinearAlgebra.ProductTwoByTwo | main_gui.py:165 | For 2×2 inputs, entry (i, j) of the product is b[i][0]·a[0][j] + b[i][1]·a[1][j]. |
| LinearAlgebra.Apply | main_gui.py:90-91 | `np.dot(m, v)` has one coordinate per row of `m`, and coordinate i is row i against `v`. |
| LinearAlgebra.ApplyProduct | main_gui.py:42 | Applying B·A to a vector is applying A and then B. |
| LinearAlgebra.ColumnOfProduct | main_gui.py:90-91 | Column j of B·A is B applied to column j of A. |
| LinearAlgebra.ApplyBasis | main_gui.py:81-82 | Column j of a matrix is the image of the j-th basis vector. |
| LinearAlgebra.ProductOrderMatters | main_gui.py:165 | For A = [[1,2],[3,4]] and B = [[0,1],[1,0]], B·A = [[3,4],[1,2]] and A·B = [[2,1],[4,3]]. The operand order is observable. |
| LinearAlgebra.RowTimesDot | main_gui.py:42 | The two orders of summation in a row of the product agree. |
| LinearAlgebra.DotAdd | main_gui.py:42 | The dot product is additive in its first argument. |
| LinearAlgebra.DotScale | main_gui.py:42 | The dot product is homogeneous in its first argument. |
| Visualizer.CalculateMatrices | main_gui.py:150-181 | The outcome is the dimension warning exactly when the dimensions are not 2×2. It is an error exactly when either parse fails, and matrix1's error takes precedence. Every error message starts with "Error parsing matrix: ". On success both matrices are 2×2 parses of the texts, and the result is `np.dot(matrix2, matrix1)`. |
| Visualizer.BuildScene | main_gui.py:38-107 | The scene's matrices are the inputs, and its product is 2×2. Each arrow vector has two coordinates. The equation label is the corrected `B \times A =` (see Findings). |
| Visualizer.SceneBasisImages | main_gui.py:81-91 | The arrows after A are A applied to the basis vectors. The arrows after B are the columns of the product, which is where B·A sends the basis vectors. |
| Visualizer.SceneLatex | main_gui.py:40-43 | The three LaTeX texts of the scene read back as A, B and B·A, rounded to hundredths. |
| Visualizer.SceneLabelNamesResult | main_gui.py:102 | The corrected equation label names the product the scene shows, as the combined equation does. |
| Visualizer.LabelAsWrittenMisnames | main_gui.py:56-57 | With the label as written, the named product A·B differs from the B·A displayed beside it. |

## Left out

- The tkinter window, its widgets, message boxes and status label (main_gui.py:160-161, 167-168, 172-214) are I/O. `CalculateMatrices` returns what would be shown instead.
- The dimension entries are taken as integers. The model does not cover `int(rows_var.get())` failing on text that is not an integer (main_gui.py:153-154).
- Writing the generated script file, running the renderer as a subprocess, walking and clearing the media directory, and opening the video (main_gui.py:45-148) are file system and process I/O. Only the numbers the script embeds are modelled.
- The animation directives in the script template are cosmetic. The equation label is the exception (see Findings).
- `np.array2string(result, precision=2, separator=' ')` in the result box (main_gui.py:168) is display formatting and is not modelled.
- Floating point is not modelled: entries are exact reals, and the product is computed without rounding.
- MatrixParser.ParseMatrix: which tokens Python's `float` accepts (exponents, underscores) is left to the `Converter` parameter. Python's `float("inf")` and `float("nan")` succeed, and the values flow through the product and print as `inf` and `nan`. No real stands for them, so a `Converter` can only reject such tokens, which turns a Python success into a parse error, or map them to a finite stand-in.
- Decimal.Fmt2: does not model the minus sign Python prints for negative zero. It rounds the exact real half-to-even, while Python rounds the binary double.
- MatrixParser.Reason: the token in the conversion error is quoted with plain single quotes. The model does not cover how `repr` escapes tokens that contain quotes or backslashes.
- Visualizer.BuildScene: carries the corrected label `B \times A =` instead of the `A \times B =` that main_gui.py:56 writes. The label as written is modelled by `Visualizer.LabelAsWritten` and `Visualizer.LabelAsWrittenMisnames`.
- Latex.ToLatex: requires at least one row of equal length. numpy cannot unpack the shape of a one-dimensional array (main_gui.py:34), and `calculate_matrices` only passes 2×2 matrices.
- Latex.LatexRoundTrip: requires at least one column. A row with no entries produces an empty cell list that the reader does not recover.
- The environment check and the missing `import sys` it relies on (main_gui.py:9-11) are startup plumbing. check_environment.py is not part of this model.

## Findings

| source | as written | input that shows it | evidently intended | confidence | as-written member | corrected member |
|---|---|---|---|---|---|---|
| main_gui.py:56 | The scene labels the product `A \times B =`, but the matrix shown beside it is `np.dot(matrix2, matrix1)`, which is B·A. | A = [[1,2],[3,4]], B = [[0,1],[1,0]]: the label names A·B = [[2,1],[4,3]], but the scene shows B·A = [[3,4],[1,2]] | `B \times A =`, as the scene's combined equation (main_gui.py:102) and the window's result label (main_gui.py:205) say | high, not executed | Visualizer.LabelAsWrittenMisnames | Visualizer.SceneLabelNamesResult |
