/**
  `calculate_matrices` and the numbers `create_manim_file` hands to the
  animation: the 2×2 gate, the two parses, the product `np.dot(matrix2,
  matrix1)` and the basis-vector images drawn after each transformation.
*/
module Visualizer {
  import opened Wrappers
  import opened Text
  import opened LinearAlgebra
  import opened MatrixParser
  import opened Latex

  /** The equation label beside the product, as the script template writes it. */
  const LabelAsWritten := @"A \times B ="

  /** The label that names the product the scene shows. */
  const LabelCorrected := @"B \times A ="

  /** What the generated scene displays: the inputs and their product with
      their LaTeX, the images of the basis vectors under A, and their images
      under B after that. */
  datatype Scene = Scene(
    a: Matrix, b: Matrix, result: Matrix,
    aTex: string, bTex: string, resultTex: string, caption: string,
    iAfterA: Vector, jAfterA: Vector,
    iFinal: Vector, jFinal: Vector)

  /** How a click on "Calculate" ends: the dimension warning, an error box
      with a message, or the product shown with its scene. */
  datatype Outcome =
    | NotTwoByTwo
    | Failed(message: string)
    | Shown(result: Matrix, scene: Scene)

  predicate TwoByTwo(m: Matrix) {
    IsShape(m, 2, 2)
  }

  /** The product the label claims is shown. */
  function NamedProduct(caption: string, a: Matrix, b: Matrix): Option<Matrix>
    requires TwoByTwo(a) && TwoByTwo(b)
  {
    if caption == LabelAsWritten then Some(Product(a, b))
    else if caption == LabelCorrected then Some(Product(b, a))
    else None
  }

  /** `create_manim_file(matrix1, matrix2)` for A = matrix1 and B = matrix2,
      with the equation label corrected to name B·A. */
  function BuildScene(a: Matrix, b: Matrix): (s: Scene)
    requires TwoByTwo(a) && TwoByTwo(b)
    ensures TwoByTwo(s.result) && s.a == a && s.b == b && s.caption == LabelCorrected
    ensures |s.iAfterA| == |s.jAfterA| == |s.iFinal| == |s.jFinal| == 2
  {
    var c := Product(b, a);
    var i1: Vector := [a[0][0], a[1][0]];
    var j1: Vector := [a[0][1], a[1][1]];
    Scene(a, b, c, ToLatex(a), ToLatex(b), ToLatex(c), LabelCorrected,
          i1, j1, Apply(b, i1), Apply(b, j1))
  }

  /** `calculate_matrices()`, with the dimension entries already read as
      integers and `float` standing for Python's conversion. */
  method CalculateMatrices(rows: int, cols: int, text1: string, text2: string, float: Converter)
    returns (r: Outcome)
    ensures r == NotTwoByTwo <==> rows != 2 || cols != 2
    ensures r.Failed? <==>
      rows == 2 && cols == 2 &&
      (Parse(text1, 2, 2, float).Failure? || Parse(text2, 2, 2, float).Failure?)
    ensures r.Failed? && Parse(text1, rows, cols, float).Failure? ==>
      r.message == Message(Parse(text1, rows, cols, float).error)
    ensures r.Failed? && Parse(text1, rows, cols, float).Success? ==>
      r.message == Message(Parse(text2, rows, cols, float).error)
    ensures r.Failed? ==> StartsWith(r.message, Prefix)
    ensures r.Shown? ==>
      Parse(text1, 2, 2, float) == Success(r.scene.a) &&
      Parse(text2, 2, 2, float) == Success(r.scene.b) &&
      TwoByTwo(r.scene.a) && TwoByTwo(r.scene.b) &&
      r.result == Product(r.scene.b, r.scene.a) &&
      r.scene == BuildScene(r.scene.a, r.scene.b)
  {
    if rows != 2 || cols != 2 {
      return NotTwoByTwo;
    }
    var p1 := ParseMatrix(text1, rows, cols, float);
    if p1.Failure? {
      return Failed(Message(p1.error));
    }
    var p2 := ParseMatrix(text2, rows, cols, float);
    if p2.Failure? {
      return Failed(Message(p2.error));
    }
    var a := p1.value;
    var b := p2.value;
    ParseSucceeds(text1, rows, cols, float);
    ParseSucceeds(text2, rows, cols, float);
    var result := Product(b, a);
    r := Shown(result, BuildScene(a, b));
  }

  // ---------------------------------------------------------------------
  // What the scene shows.

  /** The arrows drawn after A are the images of the basis vectors under A,
      and the arrows drawn after B are the columns of the product: applying
      A and then B moves each basis vector where B·A does. */
  lemma SceneBasisImages(a: Matrix, b: Matrix)
    requires TwoByTwo(a) && TwoByTwo(b)
    ensures var s := BuildScene(a, b);
      s.iAfterA == Apply(a, Basis(2, 0)) && s.jAfterA == Apply(a, Basis(2, 1)) &&
      s.iFinal == Column(s.result, 0) && s.jFinal == Column(s.result, 1) &&
      s.iFinal == Apply(s.result, Basis(2, 0)) && s.jFinal == Apply(s.result, Basis(2, 1))
  {
    var s := BuildScene(a, b);
    var c := s.result;
    ApplyBasis(a, 0);
    ApplyBasis(a, 1);
    assert Column(a, 0) == s.iAfterA;
    assert Column(a, 1) == s.jAfterA;
    ColumnOfProduct(b, a, 0);
    ColumnOfProduct(b, a, 1);
    ApplyBasis(c, 0);
    ApplyBasis(c, 1);
  }

  /** The LaTeX of the scene's matrices reads back as those matrices rounded
      to hundredths. */
  lemma SceneLatex(a: Matrix, b: Matrix)
    requires TwoByTwo(a) && TwoByTwo(b)
    ensures var s := BuildScene(a, b);
      ReadLatex(s.aTex) == Some(RoundedMatrix(a)) &&
      ReadLatex(s.bTex) == Some(RoundedMatrix(b)) &&
      ReadLatex(s.resultTex) == Some(RoundedMatrix(Product(b, a)))
  {
    LatexRoundTrip(a);
    LatexRoundTrip(b);
    LatexRoundTrip(Product(b, a));
  }

  /** The label beside the product names the product the scene shows. With
      the corrected label this holds by the definitions of `BuildScene` and
      `NamedProduct`, once the two labels are seen to differ. */
  lemma SceneLabelNamesResult(a: Matrix, b: Matrix)
    requires TwoByTwo(a) && TwoByTwo(b)
    ensures NamedProduct(BuildScene(a, b).caption, a, b) == Some(BuildScene(a, b).result)
  {
    assert LabelCorrected != LabelAsWritten by {
      assert LabelCorrected[0] != LabelAsWritten[0];
    }
  }

  /** With the label as the template writes it, the named product A·B is not
      the product B·A the scene shows: for A = [[1,2],[3,4]] and
      B = [[0,1],[1,0]], A·B = [[2,1],[4,3]] while B·A = [[3,4],[1,2]]. */
  lemma LabelAsWrittenMisnames()
    ensures var a: Matrix := [[1.0, 2.0], [3.0, 4.0]];
      var b: Matrix := [[0.0, 1.0], [1.0, 0.0]];
      NamedProduct(LabelAsWritten, a, b) != Some(Product(b, a))
  {
    ProductOrderMatters();
  }
}
