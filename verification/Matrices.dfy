/** Finite sums and square matrices over the reals, as far as covariance propagation needs them. */
module Matrices {

  type Vec = nat -> real
  type Mat = (nat, nat) -> real

  function Plus(f: Vec, g: Vec): Vec { (i: nat) => f(i) + g(i) }

  function Times(f: Vec, g: Vec): Vec { (i: nat) => f(i) * g(i) }

  function Scale(c: real, f: Vec): Vec { (i: nat) => c * f(i) }

  function Row(a: Mat, i: nat): Vec { (j: nat) => a(i, j) }

  function Flip(a: Mat): Mat { (i: nat, j: nat) => a(j, i) }

  function Sum(f: Vec, n: nat): real {
    if n == 0 then 0.0 else Sum(f, n - 1) + f(n - 1)
  }

  lemma {:induction false} SumEq(f: Vec, g: Vec, n: nat)
    requires forall i: nat :: i < n ==> f(i) == g(i)
    ensures Sum(f, n) == Sum(g, n)
  {
    if n > 0 {
      SumEq(f, g, n - 1);
    }
  }

  lemma {:induction false} SumScale(c: real, f: Vec, n: nat)
    ensures c * Sum(f, n) == Sum(Scale(c, f), n)
  {
    if n > 0 {
      SumScale(c, f, n - 1);
    }
  }

  lemma {:induction false} SumPlus(f: Vec, g: Vec, n: nat)
    ensures Sum(Plus(f, g), n) == Sum(f, n) + Sum(g, n)
  {
    if n > 0 {
      SumPlus(f, g, n - 1);
    }
  }

  lemma {:induction false} SumNonNegative(f: Vec, n: nat)
    requires forall i: nat :: i < n ==> f(i) >= 0.0
    ensures Sum(f, n) >= 0.0
  {
    if n > 0 {
      SumNonNegative(f, n - 1);
    }
  }

  /** A sum with at most one non-zero term. */
  lemma {:induction false} SumSingle(f: Vec, at: nat, n: nat)
    requires forall i: nat :: i < n && i != at ==> f(i) == 0.0
    ensures Sum(f, n) == if at < n then f(at) else 0.0
  {
    if n > 0 {
      SumSingle(f, at, n - 1);
    }
  }

  function RowSums(f: Mat, n: nat): Vec { (i: nat) => Sum(Row(f, i), n) }

  /** Exchange of two summations. */
  lemma {:induction false} SumSwap(f: Mat, m: nat, n: nat)
    ensures Sum(RowSums(f, n), m) == Sum(RowSums(Flip(f), m), n)
  {
    if m == 0 {
      SumSingle(RowSums(Flip(f), 0), n, n);
    } else {
      SumSwap(f, m - 1, n);
      SumPlus(RowSums(Flip(f), m - 1), Row(f, m - 1), n);
      SumEq(Plus(RowSums(Flip(f), m - 1), Row(f, m - 1)), RowSums(Flip(f), m), n);
    }
  }

  function Dot(x: Vec, y: Vec, n: nat): real { Sum(Times(x, y), n) }

  function Apply(a: Mat, x: Vec, n: nat): Vec { (i: nat) => Dot(Row(a, i), x, n) }

  function Product(a: Mat, b: Mat, n: nat): Mat {
    (i: nat, j: nat) => Dot(Row(a, i), Row(Flip(b), j), n)
  }

  /** The quadratic form of a matrix. */
  function Quad(p: Mat, x: Vec, n: nat): real { Dot(x, Apply(p, x, n), n) }

  ghost predicate Symmetric(p: Mat, n: nat) {
    forall i: nat, j: nat :: i < n && j < n ==> p(i, j) == p(j, i)
  }

  ghost predicate PositiveSemidefinite(p: Mat, n: nat) {
    forall x: Vec :: Quad(p, x, n) >= 0.0
  }

  lemma DotEq(x: Vec, y: Vec, x': Vec, y': Vec, n: nat)
    requires forall i: nat :: i < n ==> x(i) == x'(i)
    requires forall i: nat :: i < n ==> y(i) == y'(i)
    ensures Dot(x, y, n) == Dot(x', y', n)
  {
    SumEq(Times(x, y), Times(x', y'), n);
  }

  lemma DotCommutes(x: Vec, y: Vec, n: nat)
    ensures Dot(x, y, n) == Dot(y, x, n)
  {
    SumEq(Times(x, y), Times(y, x), n);
  }

  lemma DotPlus(x: Vec, y: Vec, z: Vec, n: nat)
    ensures Dot(x, Plus(y, z), n) == Dot(x, y, n) + Dot(x, z, n)
  {
    SumPlus(Times(x, y), Times(x, z), n);
    SumEq(Times(x, Plus(y, z)), Plus(Times(x, y), Times(x, z)), n);
  }

  /** c (u, v) as one sum. */
  lemma DotScale(c: real, u: Vec, v: Vec, f: Vec, n: nat)
    requires forall i: nat :: i < n ==> f(i) == c * (u(i) * v(i))
    ensures c * Dot(u, v, n) == Sum(f, n)
  {
    SumScale(c, Times(u, v), n);
    SumEq(Scale(c, Times(u, v)), f, n);
  }

  /** The terms x(i) a(i,j) y(j) of a bilinear form. */
  function Terms(a: Mat, x: Vec, y: Vec): Mat { (i: nat, j: nat) => x(i) * (a(i, j) * y(j)) }

  lemma BilinearByRows(a: Mat, x: Vec, y: Vec, n: nat)
    ensures Dot(x, Apply(a, y, n), n) == Sum(RowSums(Terms(a, x, y), n), n)
  {
    forall i: nat ensures Times(x, Apply(a, y, n))(i) == RowSums(Terms(a, x, y), n)(i) {
      DotScale(x(i), Row(a, i), y, Row(Terms(a, x, y), i), n);
    }
    SumEq(Times(x, Apply(a, y, n)), RowSums(Terms(a, x, y), n), n);
  }

  /** Forms with the same terms are equal. */
  lemma QuadTerms(p: Mat, x: Vec, q: Mat, y: Vec, n: nat)
    requires forall i: nat, j: nat :: i < n && j < n ==> Terms(p, x, x)(i, j) == Terms(q, y, y)(i, j)
    ensures Quad(p, x, n) == Quad(q, y, n)
  {
    hide Sum, Terms;
    BilinearByRows(p, x, x, n);
    BilinearByRows(q, y, y, n);
    forall i: nat | i < n ensures RowSums(Terms(p, x, x), n)(i) == RowSums(Terms(q, y, y), n)(i) {
      SumEq(Row(Terms(p, x, x), i), Row(Terms(q, y, y), i), n);
    }
    SumEq(RowSums(Terms(p, x, x), n), RowSums(Terms(q, y, y), n), n);
  }

  /** (x, a y) == (a' x, y) */
  lemma Adjoint(a: Mat, x: Vec, y: Vec, n: nat)
    ensures Dot(x, Apply(a, y, n), n) == Dot(Apply(Flip(a), x, n), y, n)
  {
    BilinearByRows(a, x, y, n);
    SumSwap(Terms(a, x, y), n, n);
    BilinearByRows(Flip(a), y, x, n);
    forall j: nat ensures RowSums(Flip(Terms(a, x, y)), n)(j) == RowSums(Terms(Flip(a), y, x), n)(j) {
      SumEq(Row(Flip(Terms(a, x, y)), j), Row(Terms(Flip(a), y, x), j), n);
    }
    SumEq(RowSums(Flip(Terms(a, x, y)), n), RowSums(Terms(Flip(a), y, x), n), n);
    DotCommutes(y, Apply(Flip(a), x, n), n);
  }

  /** (a b) x == a (b x), entry by entry. */
  lemma ApplyProduct(a: Mat, b: Mat, x: Vec, n: nat, i: nat)
    ensures Apply(Product(a, b, n), x, n)(i) == Apply(a, Apply(b, x, n), n)(i)
  {
    Adjoint(b, Row(a, i), x, n);
    forall j: nat ensures Row(Product(a, b, n), i)(j) == Apply(Flip(b), Row(a, i), n)(j) {
      DotCommutes(Row(a, i), Row(Flip(b), j), n);
    }
    DotEq(Row(Product(a, b, n), i), x, Apply(Flip(b), Row(a, i), n), x, n);
  }

  /** The transpose of a product. */
  lemma FlipProduct(a: Mat, b: Mat, n: nat, i: nat, j: nat)
    ensures Product(a, b, n)(i, j) == Product(Flip(b), Flip(a), n)(j, i)
  {
    DotCommutes(Row(a, i), Row(Flip(b), j), n);
    DotEq(Row(Flip(b), j), Row(a, i), Row(Flip(b), j), Row(Flip(Flip(a)), i), n);
  }

  lemma ProductEq(a: Mat, b: Mat, a': Mat, b': Mat, n: nat, i: nat, j: nat)
    requires forall k: nat :: k < n ==> a(i, k) == a'(i, k)
    requires forall k: nat :: k < n ==> b(k, j) == b'(k, j)
    ensures Product(a, b, n)(i, j) == Product(a', b', n)(i, j)
  {
    DotEq(Row(a, i), Row(Flip(b), j), Row(a', i), Row(Flip(b'), j), n);
  }

  /** Associativity of the product, entry by entry. */
  lemma ProductAssociates(a: Mat, b: Mat, c: Mat, n: nat, i: nat, j: nat)
    ensures Product(Product(a, b, n), c, n)(i, j) == Product(a, Product(b, c, n), n)(i, j)
  {
    var column := Row(Flip(c), j);
    ApplyProduct(a, b, column, n, i);
    DotEq(Row(a, i), Apply(b, column, n), Row(a, i), Row(Flip(Product(b, c, n)), j), n);
  }

  /** The quadratic form of a p a' is that of p at a' x. */
  lemma QuadSandwich(a: Mat, p: Mat, x: Vec, n: nat)
    ensures Quad(Product(Product(a, p, n), Flip(a), n), x, n) == Quad(p, Apply(Flip(a), x, n), n)
  {
    var y := Apply(Flip(a), x, n);
    var m := Product(a, p, n);
    forall i: nat ensures Apply(Product(m, Flip(a), n), x, n)(i) == Apply(a, Apply(p, y, n), n)(i) {
      ApplyProduct(m, Flip(a), x, n, i);
      ApplyProduct(a, p, y, n, i);
    }
    DotEq(x, Apply(Product(m, Flip(a), n), x, n), x, Apply(a, Apply(p, y, n), n), n);
    Adjoint(a, x, Apply(p, y, n), n);
  }

  /** Quadratic forms add. */
  lemma QuadPlus(p: Mat, q: Mat, r: Mat, x: Vec, n: nat)
    requires forall i: nat, j: nat :: r(i, j) == p(i, j) + q(i, j)
    ensures Quad(r, x, n) == Quad(p, x, n) + Quad(q, x, n)
  {
    forall i: nat ensures Apply(r, x, n)(i) == Plus(Apply(p, x, n), Apply(q, x, n))(i) {
      SumPlus(Times(Row(p, i), x), Times(Row(q, i), x), n);
      SumEq(Times(Row(r, i), x), Plus(Times(Row(p, i), x), Times(Row(q, i), x)), n);
    }
    DotEq(x, Apply(r, x, n), x, Plus(Apply(p, x, n), Apply(q, x, n)), n);
    DotPlus(x, Apply(p, x, n), Apply(q, x, n), n);
  }
}
