/**
  The matrix product `np.dot(matrix2, matrix1)` over exact reals, and the
  facts that make it the composition "apply matrix1 first, then matrix2".
*/
module LinearAlgebra {

  type Vector = seq<real>

  /** A matrix as its list of rows, the shape `np.array(rows)` gives it. */
  type Matrix = seq<seq<real>>

  predicate IsShape(m: Matrix, rows: nat, cols: nat) {
    |m| == rows && forall i :: 0 <= i < rows ==> |m[i]| == cols
  }

  /** The number of columns, read from the first row. */
  function Width(m: Matrix): nat {
    if m == [] then 0 else |m[0]|
  }

  predicate Rectangular(m: Matrix) {
    IsShape(m, |m|, Width(m))
  }

  /** The sum of the products `u[k] * v[k]`. */
  function Dot(u: Vector, v: Vector): real
    requires |u| == |v|
  {
    if u == [] then 0.0 else u[0] * v[0] + Dot(u[1..], v[1..])
  }

  function Column(m: Matrix, j: nat): (c: Vector)
    requires forall i :: 0 <= i < |m| ==> j < |m[i]|
    ensures |c| == |m| && forall i :: 0 <= i < |m| ==> c[i] == m[i][j]
  {
    seq(|m|, i requires 0 <= i < |m| && j < |m[i]| => m[i][j])
  }

  /** `np.dot(m, v)` for a matrix and a vector: the image of `v` under `m`. */
  function Apply(m: Matrix, v: Vector): (w: Vector)
    requires forall i :: 0 <= i < |m| ==> |m[i]| == |v|
    ensures |w| == |m| && forall i :: 0 <= i < |m| ==> w[i] == Dot(m[i], v)
  {
    seq(|m|, i requires 0 <= i < |m| && |m[i]| == |v| => Dot(m[i], v))
  }

  /** `np.dot(b, a)` is defined: `a` is rectangular and every row of `b` has
      one entry per row of `a`. */
  predicate Composable(b: Matrix, a: Matrix) {
    Rectangular(a) && IsShape(b, |b|, |a|)
  }

  /** Row `r` times the first `cols` columns of `a`. */
  function RowTimes(r: Vector, a: Matrix, cols: nat): (w: Vector)
    requires IsShape(a, |r|, cols)
    ensures |w| == cols
  {
    seq(cols, j requires 0 <= j < cols => Dot(r, Column(a, j)))
  }

  /** `np.dot(b, a)`: entry (i, j) is the sum over k of `b[i][k] * a[k][j]`. */
  function Product(b: Matrix, a: Matrix): (c: Matrix)
    requires Composable(b, a)
    ensures IsShape(c, |b|, Width(a))
  {
    seq(|b|, i requires 0 <= i < |b| => RowTimes(b[i], a, Width(a)))
  }

  /** The `n`-dimensional basis vector with a one in position `j`. */
  function Basis(n: nat, j: nat): (e: Vector)
    ensures |e| == n
  {
    seq(n, k => if k == j then 1.0 else 0.0)
  }

  // ---------------------------------------------------------------------
  // Linearity of the dot product.

  function Add(x: Vector, y: Vector): (z: Vector)
    requires |x| == |y|
    ensures |z| == |x|
  {
    seq(|x|, k requires 0 <= k < |x| => x[k] + y[k])
  }

  function Scale(c: real, x: Vector): (z: Vector)
    ensures |z| == |x|
  {
    seq(|x|, k requires 0 <= k < |x| => c * x[k])
  }

  lemma {:induction false} DotAdd(x: Vector, y: Vector, v: Vector)
    requires |x| == |y| == |v|
    ensures Dot(Add(x, y), v) == Dot(x, v) + Dot(y, v)
    decreases |x|
  {
    if x != [] {
      var z := Add(x, y);
      assert z[0] == x[0] + y[0];
      assert z[1..] == Add(x[1..], y[1..]);
      DotAdd(x[1..], y[1..], v[1..]);
    }
  }

  lemma {:induction false} DotScale(c: real, x: Vector, v: Vector)
    requires |x| == |v|
    ensures Dot(Scale(c, x), v) == c * Dot(x, v)
    decreases |x|
  {
    if x != [] {
      var z := Scale(c, x);
      var w := Scale(c, x[1..]);
      forall k | 0 <= k < |x| - 1 ensures z[1..][k] == w[k] {
        assert x[1..][k] == x[k + 1];
      }
      assert z[1..] == w;
      DotScale(c, x[1..], v[1..]);
    }
  }

  lemma {:induction false} DotZero(x: Vector, v: Vector)
    requires |x| == |v|
    requires (forall k :: 0 <= k < |x| ==> x[k] == 0.0) || (forall k :: 0 <= k < |v| ==> v[k] == 0.0)
    ensures Dot(x, v) == 0.0
    decreases |x|
  {
    if x != [] {
      assert forall k :: 0 <= k < |x| - 1 ==> x[1..][k] == x[k + 1] && v[1..][k] == v[k + 1];
      DotZero(x[1..], v[1..]);
    }
  }

  /** Picking entry `j` with a basis vector. */
  lemma {:induction false} DotBasis(u: Vector, j: nat)
    requires j < |u|
    ensures Dot(u, Basis(|u|, j)) == u[j]
    decreases |u|
  {
    var e := Basis(|u|, j);
    if j == 0 {
      forall k | 0 <= k < |e| - 1 ensures e[1..][k] == 0.0 {
        assert e[1..][k] == e[k + 1];
        assert k + 1 != j;
      }
      DotZero(u[1..], e[1..]);
    } else {
      assert e[1..] == Basis(|u| - 1, j - 1);
      DotBasis(u[1..], j - 1);
    }
  }

  /** A row of the product splits off its first term: the first row of `a`
      scaled by the first entry of `r`. */
  lemma RowTimesFirst(r: Vector, a: Matrix, cols: nat)
    requires r != [] && IsShape(a, |r|, cols)
    ensures RowTimes(r, a, cols) == Add(Scale(r[0], a[0]), RowTimes(r[1..], a[1..], cols))
  {
    var w := RowTimes(r, a, cols);
    var rest := RowTimes(r[1..], a[1..], cols);
    forall j | 0 <= j < cols ensures w[j] == Add(Scale(r[0], a[0]), rest)[j] {
      assert Column(a, j)[1..] == Column(a[1..], j);
    }
  }

  lemma ApplyTail(a: Matrix, v: Vector)
    requires a != [] && forall i :: 0 <= i < |a| ==> |a[i]| == |v|
    ensures Apply(a, v)[1..] == Apply(a[1..], v)
  {
    var w := Apply(a, v);
    var t := Apply(a[1..], v);
    forall i | 0 <= i < |t| ensures w[1..][i] == t[i] {
      assert w[1..][i] == w[i + 1];
      assert a[1..][i] == a[i + 1];
    }
  }

  /** Summing row-times-columns against `v` equals summing the row against the
      image of `v`: the two orders of the double sum agree. */
  lemma {:induction false} RowTimesDot(r: Vector, a: Matrix, cols: nat, v: Vector)
    requires IsShape(a, |r|, cols) && |v| == cols
    ensures Dot(RowTimes(r, a, cols), v) == Dot(r, Apply(a, v))
    decreases |r|
  {
    if r == [] {
      DotZero(RowTimes(r, a, cols), v);
    } else {
      var first := Scale(r[0], a[0]);
      var rest := RowTimes(r[1..], a[1..], cols);
      var w := Apply(a, v);
      calc {
        Dot(RowTimes(r, a, cols), v);
        { RowTimesFirst(r, a, cols); }
        Dot(Add(first, rest), v);
        { DotAdd(first, rest, v); }
        Dot(first, v) + Dot(rest, v);
        { DotScale(r[0], a[0], v); RowTimesDot(r[1..], a[1..], cols, v); }
        r[0] * Dot(a[0], v) + Dot(r[1..], Apply(a[1..], v));
        { ApplyTail(a, v); }
        r[0] * w[0] + Dot(r[1..], w[1..]);
        Dot(r, w);
      }
    }
  }

  // ---------------------------------------------------------------------
  // What the product means.

  /** Applying `np.dot(b, a)` to a vector is applying `a`, then `b`. */
  lemma ApplyProduct(b: Matrix, a: Matrix, v: Vector)
    requires Composable(b, a) && |v| == Width(a)
    ensures Apply(Product(b, a), v) == Apply(b, Apply(a, v))
  {
    var c := Product(b, a);
    forall i | 0 <= i < |b| ensures Apply(c, v)[i] == Apply(b, Apply(a, v))[i] {
      RowTimesDot(b[i], a, Width(a), v);
    }
  }

  /** Column `j` of a matrix is the image of the `j`-th basis vector. */
  lemma ApplyBasis(m: Matrix, j: nat)
    requires Rectangular(m) && j < Width(m)
    ensures Apply(m, Basis(Width(m), j)) == Column(m, j)
  {
    forall i | 0 <= i < |m| ensures Apply(m, Basis(Width(m), j))[i] == m[i][j] {
      DotBasis(m[i], j);
    }
  }

  /** Column `j` of `np.dot(b, a)` is `b` applied to column `j` of `a`. This
      holds by the definition of `Product`, whose entry (i, j) is row i of `b`
      against column j of `a`. */
  lemma ColumnOfProduct(b: Matrix, a: Matrix, j: nat)
    requires Composable(b, a) && j < Width(a)
    ensures Column(Product(b, a), j) == Apply(b, Column(a, j))
  {
  }

  /** For 2×2 matrices, written out entry by entry. */
  lemma ProductTwoByTwo(b: Matrix, a: Matrix)
    requires IsShape(b, 2, 2) && IsShape(a, 2, 2)
    ensures IsShape(Product(b, a), 2, 2)
    ensures forall i, j :: 0 <= i < 2 && 0 <= j < 2 ==>
      Product(b, a)[i][j] == b[i][0] * a[0][j] + b[i][1] * a[1][j]
  {
    forall i, j | 0 <= i < 2 && 0 <= j < 2
      ensures Product(b, a)[i][j] == b[i][0] * a[0][j] + b[i][1] * a[1][j]
    {
      var col := Column(a, j);
      assert Product(b, a)[i][j] == Dot(b[i], col);
      var row := b[i];
      assert Dot(row[1..][1..], col[1..][1..]) == 0.0;
      assert Dot(row[1..], col[1..]) == row[1] * col[1] + 0.0;
      assert Dot(row, col) == row[0] * col[0] + Dot(row[1..], col[1..]);
    }
  }

  /** The operand order matters: with A = [[1,2],[3,4]] and B = [[0,1],[1,0]]
      the product B·A swaps the rows of A, while A·B would swap its columns. */
  lemma ProductOrderMatters()
    ensures Product([[0.0, 1.0], [1.0, 0.0]], [[1.0, 2.0], [3.0, 4.0]]) == [[3.0, 4.0], [1.0, 2.0]]
    ensures Product([[1.0, 2.0], [3.0, 4.0]], [[0.0, 1.0], [1.0, 0.0]]) == [[2.0, 1.0], [4.0, 3.0]]
  {
    var a: Matrix := [[1.0, 2.0], [3.0, 4.0]];
    var b: Matrix := [[0.0, 1.0], [1.0, 0.0]];
    ProductTwoByTwo(b, a);
    var ba := Product(b, a);
    assert ba[0] == [ba[0][0], ba[0][1]] && ba[1] == [ba[1][0], ba[1][1]];
    ProductTwoByTwo(a, b);
    var ab := Product(a, b);
    assert ab[0] == [ab[0][0], ab[0][1]] && ab[1] == [ab[1][0], ab[1][1]];
  }
}
