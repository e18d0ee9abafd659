/** Covariance initialisation and prediction of deepsort-clib/src/kalman-filter.c over the reals, on the
    8 x 8 buffers the code passes to the product of matrix_f.h. */
module Kalman {
  import opened Matrices

  const N: nat := 8

  datatype Order = RowMajor | ColMajor

  /** Position of entry (i, j) in a 64-element buffer of either storage order. */
  function Index(order: Order, i: nat, j: nat): (k: nat)
    ensures i < N && j < N ==> k < N * N
  {
    if order.RowMajor? then N * i + j else N * j + i
  }

  function View(data: seq<real>, order: Order): Mat {
    (i: nat, j: nat) => if Index(order, i, j) < |data| then data[Index(order, i, j)] else 0.0
  }

  function Op(m: Mat, transposed: bool): Mat { if transposed then Flip(m) else m }

  /** Standard deviations from the filter's weights and the height entry of a mean vector. */
  function Std(position: real, velocity: real, height: real): Vec {
    (i: nat) =>
      if i == 2 then 0.01
      else if i == 6 then 0.00001
      else if i < 4 then 2.0 * position * height
      else 10.0 * velocity * height
  }

  /** diag(std^2) */
  function Diagonal(std: Vec): Mat {
    (i: nat, j: nat) => if i == j then std(i) * std(i) else 0.0
  }

  /** The diagonal a track starts with, and that every prediction adds, number by number. */
  lemma DeviationsExactly(position: real, velocity: real, height: real, i: nat, j: nat)
    requires i < 8 && j < 8
    ensures Diagonal(Std(position, velocity, height))(i, j) ==
      if i != j then 0.0
      else if i == 2 then 0.0001
      else if i == 6 then 0.0000000001
      else if i < 4 then (2.0 * position * height) * (2.0 * position * height)
      else (10.0 * velocity * height) * (10.0 * velocity * height)
  {
  }

  /** a p a' + q, the prediction of the covariance. */
  function Propagate(a: Mat, p: Mat, q: Mat, n: nat): Mat {
    (i: nat, j: nat) => Product(Product(a, p, n), Flip(a), n)(i, j) + q(i, j)
  }

  ghost predicate Covariance(p: Mat, n: nat) {
    Symmetric(p, n) && PositiveSemidefinite(p, n)
  }

  lemma DiagonalIsCovariance(std: Vec, n: nat)
    ensures Covariance(Diagonal(std), n)
  {
    forall x: Vec ensures Quad(Diagonal(std), x, n) >= 0.0 {
      forall i: nat | i < n ensures Times(x, Apply(Diagonal(std), x, n))(i) >= 0.0 {
        SumSingle(Times(Row(Diagonal(std), i), x), i, n);
        var s, v := std(i), x(i);
        assert Times(x, Apply(Diagonal(std), x, n))(i) == v * (s * s * v) == (v * s) * (v * s);
      }
      SumNonNegative(Times(x, Apply(Diagonal(std), x, n)), n);
    }
  }

  lemma SandwichSymmetric(a: Mat, p: Mat, n: nat, i: nat, j: nat)
    requires Symmetric(p, n) && i < n && j < n
    ensures Product(Product(a, p, n), Flip(a), n)(i, j) == Product(Product(a, p, n), Flip(a), n)(j, i)
  {
    SandwichFlips(a, p, n, i, j);
    forall k: nat | k < n ensures Product(a, Flip(p), n)(j, k) == Product(a, p, n)(j, k) {
      ProductEq(a, Flip(p), a, p, n, j, k);
    }
    ProductEq(Product(a, Flip(p), n), Flip(a), Product(a, p, n), Flip(a), n, j, i);
  }

  /** Transposing a p a' transposes p inside it. */
  lemma SandwichFlips(a: Mat, p: Mat, n: nat, i: nat, j: nat)
    ensures Product(Product(a, p, n), Flip(a), n)(i, j) == Product(Product(a, Flip(p), n), Flip(a), n)(j, i)
  {
    var ap := Product(a, p, n);
    FlipProduct(ap, Flip(a), n, i, j);
    forall k: nat ensures Flip(ap)(k, i) == Product(Flip(p), Flip(a), n)(k, i) {
      FlipProduct(a, p, n, i, k);
    }
    ProductEq(Flip(Flip(a)), Flip(ap), a, Product(Flip(p), Flip(a), n), n, j, i);
    ProductAssociates(a, Flip(p), Flip(a), n, j, i);
  }

  /** One prediction keeps a covariance a covariance, for every motion matrix. */
  lemma PropagateKeeps(a: Mat, p: Mat, q: Mat, n: nat)
    requires Covariance(p, n) && Covariance(q, n)
    ensures Covariance(Propagate(a, p, q, n), n)
  {
    var m := Product(Product(a, p, n), Flip(a), n);
    forall i: nat, j: nat | i < n && j < n ensures Propagate(a, p, q, n)(i, j) == Propagate(a, p, q, n)(j, i) {
      SandwichSymmetric(a, p, n, i, j);
    }
    forall x: Vec ensures Quad(Propagate(a, p, q, n), x, n) >= 0.0 {
      QuadPlus(m, q, Propagate(a, p, q, n), x, n);
      QuadSandwich(a, p, x, n);
    }
  }

  /** A prediction step: the motion matrix, the two weights and the height entry of the mean it found. */
  datatype Step = Step(motion: Mat, position: real, velocity: real, height: real)

  function Predicted(p: Mat, steps: seq<Step>): Mat {
    if steps == [] then p
    else
      var s := steps[0];
      Predicted(Propagate(s.motion, p, Diagonal(Std(s.position, s.velocity, s.height)), N), steps[1..])
  }

  /** From any initialised track, any number of predictions with any motion matrices, weights and means
      leaves the covariance symmetric and positive semidefinite. */
  lemma {:induction false} TrackKeepsCovariance(position: real, velocity: real, height: real, steps: seq<Step>)
    ensures Covariance(Predicted(Diagonal(Std(position, velocity, height)), steps), N)
  {
    DiagonalIsCovariance(Std(position, velocity, height), N);
    PredictionsKeep(Diagonal(Std(position, velocity, height)), steps);
  }

  lemma {:induction false} PredictionsKeep(p: Mat, steps: seq<Step>)
    requires Covariance(p, N)
    ensures Covariance(Predicted(p, steps), N)
    decreases |steps|
  {
    if steps != [] {
      var s := steps[0];
      var q := Diagonal(Std(s.position, s.velocity, s.height));
      DiagonalIsCovariance(Std(s.position, s.velocity, s.height), N);
      PropagateKeeps(s.motion, p, q, N);
      PredictionsKeep(Propagate(s.motion, p, q, N), steps[1..]);
    }
  }

  /** Overwriting one buffer element changes one matrix entry. */
  lemma ViewUpdate(data: seq<real>, order: Order, i: nat, j: nat, v: real, k: nat, l: nat)
    requires |data| == N * N && i < N && j < N && k < N && l < N
    ensures View(data[Index(order, i, j) := v], order)(k, l) == if k == i && l == j then v else View(data, order)(k, l)
  {
  }

  /** Entry (i, j) of a buffer taken with its order and transpose flag. */
  function At(a: array<real>, order: Order, transposed: bool, i: nat, j: nat): (x: real)
    requires a.Length == N * N && i < N && j < N
    reads a
    ensures x == Op(View(a[..], order), transposed)(i, j)
  {
    if transposed then a[Index(order, j, i)] else a[Index(order, i, j)]
  }

  lemma TermIs(left: Mat, right: Mat, i: nat, j: nat, k: nat, x: real, y: real)
    requires x == left(i, k) && y == right(k, j)
    ensures Times(Row(left, i), Row(Flip(right), j))(k) == x * y
  {
  }

  /** The k-th term of entry (i, j) of the product of two buffers. */
  method Term(order: Order, a: array<real>, transA: bool, b: array<real>, transB: bool, i: nat, j: nat, k: nat)
    returns (term: real)
    requires a.Length == b.Length == N * N && i < N && j < N && k < N
    ensures term == Times(Row(Op(View(a[..], order), transA), i), Row(Flip(Op(View(b[..], order), transB)), j))(k)
  {
    hide Op, View, At, Index, Times, Row, Flip;
    var x := At(a, order, transA, i, k);
    var y := At(b, order, transB, k, j);
    TermIs(Op(View(a[..], order), transA), Op(View(b[..], order), transB), i, j, k, x, y);
    term := x * y;
  }

  /** One entry of the product of two buffers. */
  method Entry(order: Order, a: array<real>, transA: bool, b: array<real>, transB: bool, i: nat, j: nat)
    returns (sum: real)
    requires a.Length == b.Length == N * N && i < N && j < N
    ensures sum == Product(Op(View(a[..], order), transA), Op(View(b[..], order), transB), N)(i, j)
  {
    hide Op, View, Index, Times, Row, Flip;
    ghost var terms := Times(Row(Op(View(a[..], order), transA), i), Row(Flip(Op(View(b[..], order), transB)), j));
    sum := 0.0;
    var k: nat := 0;
    while k < N
      invariant k <= N
      invariant sum == Sum(terms, k)
    {
      var term := Term(order, a, transA, b, transB, i, j, k);
      sum := sum + term;
      k := k + 1;
    }
  }

  /** Entries before (i, j) in row order come from `after`, the others from `before`. */
  ghost predicate DoneUpTo(m: Mat, before: Mat, after: Mat, i: nat, j: nat) {
    forall k: nat, l: nat :: k < N && l < N ==>
      m(k, l) == if k < i || (k == i && l < j) then after(k, l) else before(k, l)
  }

  lemma DoneNext(data: seq<real>, order: Order, before: Mat, after: Mat, i: nat, j: nat)
    requires |data| == N * N && i < N && j < N && DoneUpTo(View(data, order), before, after, i, j)
    ensures DoneUpTo(View(data[Index(order, i, j) := after(i, j)], order), before, after, i, j + 1)
  {
    forall k: nat, l: nat | k < N && l < N
      ensures View(data[Index(order, i, j) := after(i, j)], order)(k, l) ==
        if k < i || (k == i && l < j + 1) then after(k, l) else before(k, l)
    {
      ViewUpdate(data, order, i, j, after(i, j), k, l);
    }
  }

  lemma DoneRow(m: Mat, before: Mat, after: Mat, i: nat)
    requires DoneUpTo(m, before, after, i, N)
    ensures DoneUpTo(m, before, after, i + 1, 0)
  {
  }

  /** alpha op(a) op(b) + beta c, as matrices. */
  function Gemm(alpha: real, left: Mat, right: Mat, beta: real, c: Mat): Mat {
    (i: nat, j: nat) => alpha * Product(left, right, N)(i, j) + beta * c(i, j)
  }

  method UpdateEntry(c: array<real>, order: Order, alpha: real, a: array<real>, transA: bool,
                     b: array<real>, transB: bool, beta: real, i: nat, j: nat)
    requires a.Length == b.Length == c.Length == N * N && c != a && c != b && i < N && j < N
    modifies c
    ensures c[..] == old(c[..])[Index(order, i, j) :=
      Gemm(alpha, Op(View(a[..], order), transA), Op(View(b[..], order), transB), beta, View(old(c[..]), order))(i, j)]
  {
    hide Product, View;
    var sum := Entry(order, a, transA, b, transB, i, j);
    var entry := At(c, order, false, i, j);
    ghost var data := c[..];
    var v := alpha * sum + beta * entry;
    c[Index(order, i, j)] := v;
    assert c[..] == data[Index(order, i, j) := v];
    assert v ==
      Gemm(alpha, Op(View(a[..], order), transA), Op(View(b[..], order), transB), beta, View(data, order))(i, j);
  }

  /** cblas_sgemm on 8 x 8 buffers: c = alpha op(a) op(b) + beta c, one order for all three. */
  method Sgemm(order: Order, c: array<real>, alpha: real, a: array<real>, transA: bool,
               b: array<real>, transB: bool, beta: real)
    requires a.Length == b.Length == c.Length == N * N && c != a && c != b
    modifies c
    ensures forall i: nat, j: nat :: i < N && j < N ==>
      View(c[..], order)(i, j) ==
        alpha * Product(Op(View(a[..], order), transA), Op(View(b[..], order), transB), N)(i, j)
        + beta * View(old(c[..]), order)(i, j)
  {
    hide Product, View, Op;
    ghost var left, right := Op(View(a[..], order), transA), Op(View(b[..], order), transB);
    ghost var before := View(c[..], order);
    ghost var after := Gemm(alpha, left, right, beta, before);
    var i: nat := 0;
    while i < N
      invariant i <= N && a[..] == old(a[..]) && b[..] == old(b[..])
      invariant DoneUpTo(View(c[..], order), before, after, i, 0)
    {
      var j: nat := 0;
      while j < N
        invariant j <= N && a[..] == old(a[..]) && b[..] == old(b[..])
        invariant DoneUpTo(View(c[..], order), before, after, i, j)
      {
        assert View(c[..], order)(i, j) == before(i, j);
        assert after(i, j) ==
          Gemm(alpha, Op(View(a[..], order), transA), Op(View(b[..], order), transB), beta, View(c[..], order))(i, j);
        DoneNext(c[..], order, before, after, i, j);
        UpdateEntry(c, order, alpha, a, transA, b, transB, beta, i, j);
        j := j + 1;
      }
      DoneRow(View(c[..], order), before, after, i);
      i := i + 1;
    }
  }

  /** matrix_f_mm: the orders of all three operands must agree, which an assertion checks. Without assertions
      the order of `c` is used for all. */
  method MultiplyAdd(c: array<real>, orderC: Order, alpha: real, a: array<real>, orderA: Order, transA: bool,
                     b: array<real>, orderB: Order, transB: bool, beta: real, asserting: bool) returns (ok: bool)
    requires a.Length == b.Length == c.Length == N * N && c != a && c != b
    modifies c
    ensures ok <==> !asserting || orderA == orderB == orderC
    ensures !ok ==> c[..] == old(c[..])
    ensures ok ==> forall i: nat, j: nat :: i < N && j < N ==>
      View(c[..], orderC)(i, j) ==
        alpha * Product(Op(View(a[..], orderC), transA), Op(View(b[..], orderC), transB), N)(i, j)
        + beta * View(old(c[..]), orderC)(i, j)
  {
    hide Product, View, Op;
    if asserting && !(orderC == orderA && orderC == orderB) {
      return false;
    }
    Sgemm(orderC, c, alpha, a, transA, b, transB, beta);
    return true;
  }

  lemma FlippedView(data: seq<real>, i: nat, j: nat)
    requires |data| == N * N && i < N && j < N
    ensures View(data, ColMajor)(i, j) == View(data, RowMajor)(j, i)
  {
  }

  /** Being a covariance depends on the 8 x 8 entries only. */
  lemma CovarianceEq(p: Mat, p': Mat, n: nat)
    requires Covariance(p, n) && forall i: nat, j: nat :: i < n && j < n ==> p'(i, j) == p(i, j)
    ensures Covariance(p', n)
  {
    forall x: Vec ensures Quad(p', x, n) >= 0.0 {
      forall i: nat | i < n ensures Apply(p', x, n)(i) == Apply(p, x, n)(i) {
        DotEq(Row(p', i), x, Row(p, i), x, n);
      }
      DotEq(x, Apply(p', x, n), x, Apply(p, x, n), n);
      assert Quad(p, x, n) >= 0.0;
    }
  }

  /** What the two products compute when the second takes its operands in column order. */
  function Slipped(a: Mat, p: Mat, q: Mat, n: nat): Mat {
    (i: nat, j: nat) => Product(Flip(a), Product(a, p, n), n)(i, j) + q(i, j)
  }

  /** The covariance after both products, by the order of its tag. */
  function Computed(tag: Order, a: Mat, p: Mat, q: Mat, n: nat): Mat {
    if tag == RowMajor then Propagate(a, p, q, n) else Slipped(a, p, q, n)
  }

  /** a' a, the inner products of the columns of a. */
  function Gram(a: Mat, n: nat): Mat { Product(Flip(a), a, n) }

  lemma GramFlips(a: Mat, n: nat, i: nat, j: nat)
    ensures Gram(a, n)(i, j) == Gram(a, n)(j, i)
  {
    FlipProduct(Flip(a), a, n, i, j);
    ProductEq(Flip(a), Flip(Flip(a)), Flip(a), a, n, j, i);
  }

  lemma SlippedIsGram(a: Mat, p: Mat, q: Mat, n: nat, i: nat, j: nat)
    ensures Slipped(a, p, q, n)(i, j) == Product(Gram(a, n), p, n)(i, j) + q(i, j)
  {
    ProductAssociates(Flip(a), a, p, n, i, j);
  }

  lemma GramSwaps(a: Mat, p: Mat, n: nat, i: nat, j: nat)
    requires Symmetric(p, n) && i < n && j < n
    ensures Product(Gram(a, n), p, n)(j, i) == Product(p, Gram(a, n), n)(i, j)
  {
    hide Gram;
    FlipProduct(Gram(a, n), p, n, j, i);
    forall k: nat ensures Flip(Gram(a, n))(k, j) == Gram(a, n)(k, j) {
      GramFlips(a, n, k, j);
    }
    ProductEq(Flip(p), Flip(Gram(a, n)), p, Gram(a, n), n, i, j);
  }

  ghost predicate Commute(a: Mat, b: Mat, n: nat) {
    forall i: nat, j: nat :: i < n && j < n ==> Product(a, b, n)(i, j) == Product(b, a, n)(i, j)
  }

  /** The slipped result is symmetric exactly when a' a commutes with the covariance. */
  lemma SlippedSymmetricExactly(a: Mat, p: Mat, std: Vec, n: nat)
    requires Symmetric(p, n)
    ensures Symmetric(Slipped(a, p, Diagonal(std), n), n) <==> Commute(Gram(a, n), p, n)
  {
    hide Gram, Product;
    var s := Slipped(a, p, Diagonal(std), n);
    forall i: nat, j: nat | i < n && j < n
      ensures s(i, j) == s(j, i) <==> Product(Gram(a, n), p, n)(i, j) == Product(p, Gram(a, n), n)(i, j)
    {
      SlippedIsGram(a, p, Diagonal(std), n, i, j);
      SlippedIsGram(a, p, Diagonal(std), n, j, i);
      GramSwaps(a, p, n, i, j);
    }
  }

  lemma DiagonalRight(g: Mat, s: Vec, n: nat, i: nat, j: nat)
    requires i < n && j < n
    ensures Product(g, Diagonal(s), n)(i, j) == g(i, j) * (s(j) * s(j))
  {
    hide Sum;
    var terms := Times(Row(g, i), Row(Flip(Diagonal(s)), j));
    assert forall k: nat :: terms(k) == g(i, k) * Diagonal(s)(k, j);
    SumSingle(terms, j, n);
  }

  lemma DiagonalLeft(g: Mat, s: Vec, n: nat, i: nat, j: nat)
    requires i < n && j < n
    ensures Product(Diagonal(s), g, n)(i, j) == (s(i) * s(i)) * g(i, j)
  {
    hide Sum;
    var terms := Times(Row(Diagonal(s), i), Row(Flip(g), j));
    assert forall k: nat :: terms(k) == Diagonal(s)(i, k) * g(k, j);
    SumSingle(terms, i, n);
  }

  /** Any two columns of the motion matrix are orthogonal or belong to entries of the same deviation. */
  ghost predicate ColumnsMatch(a: Mat, s: Vec, n: nat) {
    forall i: nat, j: nat :: i < n && j < n ==> Gram(a, n)(i, j) == 0.0 || s(i) * s(i) == s(j) * s(j)
  }

  lemma FirstPredictionSymmetric(a: Mat, s: Vec, std: Vec, n: nat)
    ensures Symmetric(Slipped(a, Diagonal(s), Diagonal(std), n), n) <==> ColumnsMatch(a, s, n)
  {
    hide Gram, Product, Slipped;
    SlippedSymmetricExactly(a, Diagonal(s), std, n);
    forall i: nat, j: nat | i < n && j < n
      ensures Product(Gram(a, n), Diagonal(s), n)(i, j) == Product(Diagonal(s), Gram(a, n), n)(i, j) <==>
        Gram(a, n)(i, j) == 0.0 || s(i) * s(i) == s(j) * s(j)
    {
      DiagonalRight(Gram(a, n), s, n, i, j);
      DiagonalLeft(Gram(a, n), s, n, i, j);
      Cancel(Gram(a, n)(i, j), s(i) * s(i), s(j) * s(j));
    }
  }

  lemma Cancel(g: real, x: real, y: real)
    ensures g * y == x * g <==> g == 0.0 || x == y
  {
    if g * y == x * g && g != 0.0 {
      assert g * (y - x) == 0.0;
    }
  }

  function Abs(x: real): real { if x < 0.0 then -x else x }

  lemma EqualSquares(u: real, v: real)
    requires u * u == v * v
    ensures Abs(u) * Abs(v) == v * v
  {
    assert (u - v) * (u + v) == 0.0;
    ZeroProduct(u - v, u + v);
  }

  lemma ZeroProduct(x: real, y: real)
    requires x * y == 0.0
    ensures x == 0.0 || y == 0.0
  {
    if x != 0.0 {
      assert x * y / x == y;
    }
  }

  /** One term of the form of a' a diag(s^2) at x, and of a' a at |s| x. */
  lemma TermMoves(g: real, u: real, v: real, x: real, y: real)
    requires g == 0.0 || u * u == v * v
    ensures x * (g * (v * v) * y) == Abs(u) * x * (g * (Abs(v) * y))
  {
    if g != 0.0 {
      EqualSquares(u, v);
      assert Abs(u) * x * (g * (Abs(v) * y)) == Abs(u) * Abs(v) * (x * g * y);
      assert x * (g * (v * v) * y) == v * v * (x * g * y);
    }
  }

  lemma GramNonNegative(a: Mat, y: Vec, n: nat)
    ensures Quad(Gram(a, n), y, n) >= 0.0
  {
    hide Sum;
    var z := Apply(a, y, n);
    forall i: nat ensures Apply(Gram(a, n), y, n)(i) == Apply(Flip(a), z, n)(i) {
      ApplyProduct(Flip(a), a, y, n, i);
    }
    DotEq(y, Apply(Gram(a, n), y, n), y, Apply(Flip(a), z, n), n);
    Adjoint(Flip(a), y, z, n);
    forall i: nat ensures Apply(Flip(Flip(a)), y, n)(i) == z(i) {
      DotEq(Row(Flip(Flip(a)), i), y, Row(a, i), y, n);
    }
    DotEq(Apply(Flip(Flip(a)), y, n), z, z, z, n);
    forall i: nat ensures Times(z, z)(i) >= 0.0 {
      Square(z(i));
    }
    SumNonNegative(Times(z, z), n);
  }

  lemma ScaledGramNonNegative(a: Mat, s: Vec, x: Vec, n: nat)
    requires ColumnsMatch(a, s, n)
    ensures Quad(Product(Gram(a, n), Diagonal(s), n), x, n) >= 0.0
  {
    hide Gram, Product, Quad, Diagonal, Abs;
    var y: Vec := (i: nat) => Abs(s(i)) * x(i);
    var p := Product(Gram(a, n), Diagonal(s), n);
    forall i: nat, j: nat | i < n && j < n ensures Terms(p, x, x)(i, j) == Terms(Gram(a, n), y, y)(i, j) {
      DiagonalRight(Gram(a, n), s, n, i, j);
      TermMoves(Gram(a, n)(i, j), s(i), s(j), x(i), x(j));
    }
    QuadTerms(p, x, Gram(a, n), y, n);
    GramNonNegative(a, y, n);
  }

  /** For a freshly initialised track the result is a covariance, and even symmetric, exactly then. */
  lemma FirstPredictionCovarianceExactly(a: Mat, s: Vec, std: Vec, n: nat)
    ensures Symmetric(Slipped(a, Diagonal(s), Diagonal(std), n), n) <==> ColumnsMatch(a, s, n)
    ensures Covariance(Slipped(a, Diagonal(s), Diagonal(std), n), n) <==> ColumnsMatch(a, s, n)
  {
    hide Gram, Product, Slipped, ColumnsMatch, Diagonal, Quad, Symmetric;
    FirstPredictionSymmetric(a, s, std, n);
    if ColumnsMatch(a, s, n) {
      var first, p := Slipped(a, Diagonal(s), Diagonal(std), n), Product(Gram(a, n), Diagonal(s), n);
      forall x: Vec ensures Quad(first, x, n) >= 0.0 {
        forall i: nat, j: nat ensures first(i, j) == p(i, j) + Diagonal(std)(i, j) {
          SlippedIsGram(a, Diagonal(s), Diagonal(std), n, i, j);
        }
        QuadPlus(p, Diagonal(std), first, x, n);
        ScaledGramNonNegative(a, s, x, n);
        DiagonalIsCovariance(std, n);
      }
    }
  }

  // When the slip does no harm.

  /** The intended result is reached exactly when a' a p is a p a'. */
  lemma SlippedRight(a: Mat, p: Mat, q: Mat, n: nat, i: nat, j: nat)
    ensures Slipped(a, p, q, n)(i, j) == Propagate(a, p, q, n)(i, j) <==>
      Product(Gram(a, n), p, n)(i, j) == Product(Product(a, p, n), Flip(a), n)(i, j)
  {
    SlippedIsGram(a, p, q, n, i, j);
  }

  ghost predicate UpperTriangular(a: Mat, n: nat) {
    forall i: nat, j: nat :: j < i < n ==> a(i, j) == 0.0
  }

  /** Column j has nothing off the diagonal. */
  ghost predicate ColumnBare(a: Mat, n: nat, j: nat) { forall i: nat :: i < n && i != j ==> a(i, j) == 0.0 }

  ghost predicate IsDiagonal(a: Mat, n: nat) { forall j: nat :: j < n ==> ColumnBare(a, n, j) }

  lemma {:induction false} TwoTerms(f: Vec, m: nat, k: nat, n: nat)
    requires m < n && k < n && k != m && forall i: nat :: f(i) >= 0.0
    ensures Sum(f, n) >= f(m) + f(k)
  {
    if m == n - 1 || k == n - 1 {
      OneTerm(f, if m == n - 1 then k else m, n - 1);
    } else {
      TwoTerms(f, m, k, n - 1);
    }
  }

  lemma {:induction false} OneTerm(f: Vec, m: nat, n: nat)
    requires m < n && forall i: nat :: f(i) >= 0.0
    ensures Sum(f, n) >= f(m)
  {
    if m == n - 1 {
      SumNonNegative(f, n - 1);
    } else {
      OneTerm(f, m, n - 1);
    }
  }

  /** Entry (i, j) of a diag(s^2) a' as a sum over the two rows. */
  lemma SandwichTerms(a: Mat, s: Vec, n: nat, i: nat, j: nat, terms: Vec)
    requires i < n && forall k: nat :: k < n ==> terms(k) == a(i, k) * (s(k) * s(k)) * a(j, k)
    ensures Product(Product(a, Diagonal(s), n), Flip(a), n)(i, j) == Sum(terms, n)
  {
    hide Sum, Diagonal;
    var ad := Product(a, Diagonal(s), n);
    forall k: nat | k < n ensures Times(Row(ad, i), Row(Flip(Flip(a)), j))(k) == terms(k) {
      DiagonalRight(a, s, n, i, k);
    }
    SumEq(Times(Row(ad, i), Row(Flip(Flip(a)), j)), terms, n);
  }

  /** Where row m has only its diagonal entry left and the two results agree at (m, m), so has column m. */
  lemma ColumnMustBeBare(a: Mat, s: Vec, n: nat, m: nat)
    requires m < n && s(m) != 0.0 && forall k: nat :: k < n && k != m ==> a(m, k) == 0.0
    requires Product(Gram(a, n), Diagonal(s), n)(m, m) == Product(Product(a, Diagonal(s), n), Flip(a), n)(m, m)
    ensures ColumnBare(a, n, m)
  {
    hide Sum, Diagonal, Gram;
    var terms: Vec := (k: nat) => a(m, k) * (s(k) * s(k)) * a(m, k);
    SandwichTerms(a, s, n, m, m, terms);
    SumSingle(terms, m, n);
    DiagonalRight(Gram(a, n), s, n, m, m);
    Reorder(a(m, m), s(m) * s(m));
    Square(s(m));
    SameFactor(Gram(a, n)(m, m), a(m, m) * a(m, m), s(m) * s(m));
    OneSquareLeft(a, n, m);
  }

  lemma OneSquareLeft(a: Mat, n: nat, m: nat)
    requires m < n && Gram(a, n)(m, m) == a(m, m) * a(m, m)
    ensures ColumnBare(a, n, m)
  {
    hide Sum;
    var squares := Times(Row(Flip(a), m), Row(Flip(a), m));
    assert Gram(a, n)(m, m) == Sum(squares, n);
    forall k: nat ensures squares(k) == a(k, m) * a(k, m) >= 0.0 {
      Square(a(k, m));
    }
    forall k: nat | k < n && k != m ensures a(k, m) == 0.0 {
      TwoTerms(squares, m, k, n);
      Square(a(k, m));
    }
  }

  lemma Square(x: real)
    ensures x * x >= 0.0 && (x * x == 0.0 <==> x == 0.0)
  {
    if x * x == 0.0 {
      ZeroProduct(x, x);
    }
  }

  lemma Reorder(x: real, c: real)
    ensures x * c * x == x * x * c
  {
  }

  lemma SameFactor(x: real, y: real, c: real)
    requires x * c == y * c && c != 0.0
    ensures x == y
  {
    Cancel(c, x, y);
  }

  lemma {:induction false} ColumnsMustBeBare(a: Mat, s: Vec, n: nat, m: nat)
    requires UpperTriangular(a, n) && m <= n && forall i: nat :: i < n ==> s(i) != 0.0
    requires forall i: nat :: i < n ==>
      Product(Gram(a, n), Diagonal(s), n)(i, i) == Product(Product(a, Diagonal(s), n), Flip(a), n)(i, i)
    ensures forall j: nat :: m <= j < n ==> ColumnBare(a, n, j)
    decreases n - m
  {
    hide Product, Gram, Diagonal;
    if m < n {
      ColumnsMustBeBare(a, s, n, m + 1);
      forall k: nat | k < n && k != m ensures a(m, k) == 0.0 {
        assert k > m ==> ColumnBare(a, n, k);
      }
      ColumnMustBeBare(a, s, n, m);
    }
  }

  lemma DiagonalEntries(a: Mat, s: Vec, n: nat, i: nat, j: nat)
    requires IsDiagonal(a, n) && i < n && j < n
    ensures Product(Gram(a, n), Diagonal(s), n)(i, j) == Product(Product(a, Diagonal(s), n), Flip(a), n)(i, j)
  {
    hide Sum, Diagonal, Product;
    assert ColumnBare(a, n, i) && ColumnBare(a, n, j);
    assert forall k: nat :: k < n && k != i ==> ColumnBare(a, n, k) && a(i, k) == 0.0;
    var terms: Vec := (k: nat) => a(i, k) * (s(k) * s(k)) * a(j, k);
    SandwichTerms(a, s, n, i, j, terms);
    SumSingle(terms, i, n);
    DiagonalRight(Gram(a, n), s, n, i, j);
    GramOfDiagonal(a, n, i, j);
    assert i != j ==> a(j, i) == 0.0;
  }

  lemma GramOfDiagonal(a: Mat, n: nat, i: nat, j: nat)
    requires i < n && j < n && ColumnBare(a, n, i) && ColumnBare(a, n, j)
    ensures Gram(a, n)(i, j) == if i == j then a(i, i) * a(i, i) else 0.0
  {
    hide Sum;
    SumSingle(Times(Row(Flip(a), i), Row(Flip(a), j)), i, n);
  }

  /** For a fresh track with non-zero deviations and a motion matrix in which no entry depends on an earlier one:
      the intended prediction is reached exactly when no entry depends on another. */
  lemma FirstPredictionRightExactly(a: Mat, s: Vec, q: Mat, n: nat)
    requires UpperTriangular(a, n) && forall i: nat :: i < n ==> s(i) != 0.0
    ensures (forall i: nat, j: nat :: i < n && j < n ==>
              Slipped(a, Diagonal(s), q, n)(i, j) == Propagate(a, Diagonal(s), q, n)(i, j)) <==> IsDiagonal(a, n)
  {
    hide Gram, Product, Slipped, Propagate, Diagonal, IsDiagonal;
    forall i: nat, j: nat | i < n && j < n
      ensures Slipped(a, Diagonal(s), q, n)(i, j) == Propagate(a, Diagonal(s), q, n)(i, j) <==>
        Product(Gram(a, n), Diagonal(s), n)(i, j) == Product(Product(a, Diagonal(s), n), Flip(a), n)(i, j)
    {
      SlippedRight(a, Diagonal(s), q, n, i, j);
    }
    if forall i: nat, j: nat :: i < n && j < n ==>
        Slipped(a, Diagonal(s), q, n)(i, j) == Propagate(a, Diagonal(s), q, n)(i, j) {
      ColumnsMustBeBare(a, s, n, 0);
      AllBare(a, n);
    }
    if IsDiagonal(a, n) {
      forall i: nat, j: nat | i < n && j < n
        ensures Product(Gram(a, n), Diagonal(s), n)(i, j) == Product(Product(a, Diagonal(s), n), Flip(a), n)(i, j)
      {
        DiagonalEntries(a, s, n, i, j);
      }
    }
  }

  lemma AllBare(a: Mat, n: nat)
    requires forall j: nat :: j < n ==> ColumnBare(a, n, j)
    ensures IsDiagonal(a, n)
  {
  }

  /** Constant velocity over a time step: the four positions move by step times their velocities. */
  function ConstantVelocity(step: real): Mat {
    (i: nat, j: nat) => if i == j then 1.0 else if j == i + 4 then step else 0.0
  }

  /** With such a motion matrix the first prediction of every track is asymmetric, whatever the weights and
      heights: the deviations of aspect ratio and of its velocity differ. */
  lemma ConstantVelocityBreaksSymmetry(step: real, position: real, velocity: real, height: real, std: Vec)
    requires step != 0.0
    ensures !Symmetric(Slipped(ConstantVelocity(step), Diagonal(Std(position, velocity, height)), Diagonal(std), N), N)
  {
    var a, s := ConstantVelocity(step), Std(position, velocity, height);
    FirstPredictionSymmetric(a, s, std, N);
    SumSingle(Times(Row(Flip(a), 2), Row(Flip(a), 6)), 2, N);
    assert Gram(a, N)(2, 6) == step;
    assert s(2) * s(2) == 0.0001 && s(6) * s(6) == 0.0000000001;
  }

  /** kalman_filter_t */
  class Filter {
    const motion: array<real>
    const position: real
    const velocity: real

    constructor (motion: array<real>, position: real, velocity: real)
      ensures this.motion == motion && this.position == position && this.velocity == velocity
    {
      this.motion, this.position, this.velocity := motion, position, velocity;
    }
  }

  /** kalman_filter_state_t */
  class Track {
    const mean: array<real>
    const covariance: array<real>

    ghost predicate Valid()
      reads this
    {
      mean.Length == N && covariance.Length == N * N && mean != covariance
    }

    constructor ()
      ensures Valid() && fresh(mean) && fresh(covariance)
    {
      mean := new real[N](_ => 0.0);
      covariance := new real[N * N](_ => 0.0);
    }

    /** kalman_filter_initialize: the measurement becomes the position half of the mean. */
    method Initialize(filter: Filter, measurement: seq<real>)
      requires Valid() && |measurement| == 4
      modifies mean, covariance
      ensures forall i: nat, j: nat :: i < N && j < N ==>
        View(covariance[..], RowMajor)(i, j) == Diagonal(Std(filter.position, filter.velocity, measurement[3]))(i, j)
      ensures mean[..] == measurement + [0.0, 0.0, 0.0, 0.0]
      ensures covariance[0] == covariance[9] == covariance[27] ==
        (2.0 * filter.position * measurement[3]) * (2.0 * filter.position * measurement[3])
      ensures covariance[36] == covariance[45] == covariance[63] ==
        (10.0 * filter.velocity * measurement[3]) * (10.0 * filter.velocity * measurement[3])
      ensures covariance[18] == 0.0001 && covariance[54] == 0.0000000001
      ensures forall k :: 0 <= k < 64 && k % 9 != 0 ==> covariance[k] == 0.0
      ensures Covariance(View(covariance[..], RowMajor), N)
    {
      forall i | 0 <= i < N {
        mean[i] := if i < 4 then measurement[i] else 0.0;
      }
      FillDiagonal(covariance, filter.position, filter.velocity, measurement[3]);
      var std := Std(filter.position, filter.velocity, measurement[3]);
      hide Std, Diagonal, View, Covariance;
      DiagonalIsCovariance(std, N);
      CovarianceEq(Diagonal(std), View(covariance[..], RowMajor), N);
      InitialEntries(covariance[..], filter.position, filter.velocity, measurement[3]);
    }

    /** kalman_filter_predict with the covariance tagged `tag`. `nextMean` stands for the result of the aliased
        in-place mean product. False is a failed assertion in the first matrix product. */
    method PredictTagged(filter: Filter, nextMean: seq<real>, tag: Order, asserting: bool) returns (ok: bool)
      requires Valid() && |nextMean| == N
      requires filter.motion.Length == N * N && filter.motion != covariance && filter.motion != mean
      modifies mean, covariance
      ensures mean[..] == nextMean
      ensures ok <==> tag == RowMajor || !asserting
      ensures !ok ==> covariance[..] == old(covariance[..])
      ensures ok ==> var a, p := View(filter.motion[..], RowMajor), View(old(covariance[..]), RowMajor);
        var q := Diagonal(Std(filter.position, filter.velocity, old(mean[3])));
        forall i: nat, j: nat :: i < N && j < N ==>
          View(covariance[..], RowMajor)(i, j) == Computed(tag, a, p, q, N)(i, j)
    {
      hide Product, Std, Diagonal, View, Op, Computed;
      var height := mean[3];
      forall i | 0 <= i < N {
        mean[i] := nextMean[i];
      }
      ghost var before := covariance[..];
      ghost var motion := filter.motion[..];
      var temp := new real[N * N](_ => 0.0);
      ghost var zeros := temp[..];
      ok := MultiplyAdd(temp, RowMajor, 1.0, filter.motion, RowMajor, false, covariance, tag, false, 0.0, asserting);
      if !ok {
        return;
      }
      FillDiagonal(covariance, filter.position, filter.velocity, height);
      ghost var diagonal := covariance[..];
      ok := MultiplyAdd(covariance, tag, 1.0, temp, RowMajor, false, filter.motion, RowMajor, true, 1.0, asserting);
      assert filter.motion[..] == motion;
      assert before == old(covariance[..]) && height == old(mean[3]);
      ProductsCompute(zeros, before, temp[..], diagonal, covariance[..], motion, tag,
        Std(filter.position, filter.velocity, height));
    }

    /** kalman_filter_predict: the tag is column-major. */
    method Predict(filter: Filter, nextMean: seq<real>, asserting: bool) returns (ok: bool)
      requires Valid() && |nextMean| == N
      requires filter.motion.Length == N * N && filter.motion != covariance && filter.motion != mean
      modifies mean, covariance
      ensures mean[..] == nextMean
      ensures ok <==> !asserting
      ensures asserting ==> covariance[..] == old(covariance[..])
      ensures !asserting ==> var a, p := View(filter.motion[..], RowMajor), View(old(covariance[..]), RowMajor);
        var q := Diagonal(Std(filter.position, filter.velocity, old(mean[3])));
        forall i: nat, j: nat :: i < N && j < N ==> View(covariance[..], RowMajor)(i, j) == Slipped(a, p, q, N)(i, j)
      ensures !asserting ==>
        var a, p, h := View(filter.motion[..], RowMajor), View(old(covariance[..]), RowMajor), old(mean[3]);
        forall i: nat, j: nat :: i < N && j < N ==>
          View(covariance[..], RowMajor)(i, j) == Product(Flip(a), Product(a, p, N), N)(i, j) +
          (if i != j then 0.0
           else if i == 2 then 0.0001
           else if i == 6 then 0.0000000001
           else if i < 4 then (2.0 * filter.position * h) * (2.0 * filter.position * h)
           else (10.0 * filter.velocity * h) * (10.0 * filter.velocity * h))
    {
      hide Std, Diagonal, View, Product;
      ghost var height := mean[3];
      ok := PredictTagged(filter, nextMean, ColMajor, asserting);
      forall i: nat, j: nat | i < N && j < N {
        DeviationsExactly(filter.position, filter.velocity, height, i, j);
      }
    }

    /** Tagged as it is stored, row-major, a prediction is A P A' + Q and keeps a covariance a covariance. */
    method PredictRowMajor(filter: Filter, nextMean: seq<real>, asserting: bool)
      requires Valid() && |nextMean| == N
      requires filter.motion.Length == N * N && filter.motion != covariance && filter.motion != mean
      modifies mean, covariance
      ensures forall i: nat, j: nat :: i < N && j < N ==>
        View(covariance[..], RowMajor)(i, j) ==
          Propagate(View(filter.motion[..], RowMajor), View(old(covariance[..]), RowMajor),
                    Diagonal(Std(filter.position, filter.velocity, old(mean[3]))), N)(i, j)
      ensures old(Covariance(View(covariance[..], RowMajor), N)) ==> Covariance(View(covariance[..], RowMajor), N)
    {
      hide Std, Diagonal, View, Slipped, Propagate, Covariance;
      ghost var p, std := View(covariance[..], RowMajor), Std(filter.position, filter.velocity, mean[3]);
      ghost var motion := View(filter.motion[..], RowMajor);
      var ok := PredictTagged(filter, nextMean, RowMajor, asserting);
      assert Computed(RowMajor, motion, p, Diagonal(std), N) == Propagate(motion, p, Diagonal(std), N);
      if Covariance(p, N) {
        DiagonalIsCovariance(std, N);
        PropagateKeeps(motion, p, Diagonal(std), N);
        CovarianceEq(Propagate(motion, p, Diagonal(std), N), View(covariance[..], RowMajor), N);
      }
    }
  }

  /** The buffer, entry by entry. */
  lemma InitialEntries(data: seq<real>, position: real, velocity: real, height: real)
    requires |data| == 64
    requires forall i: nat, j: nat :: i < 8 && j < 8 ==>
      View(data, RowMajor)(i, j) == Diagonal(Std(position, velocity, height))(i, j)
    ensures data[0] == data[9] == data[27] == (2.0 * position * height) * (2.0 * position * height)
    ensures data[36] == data[45] == data[63] == (10.0 * velocity * height) * (10.0 * velocity * height)
    ensures data[18] == 0.0001 && data[54] == 0.0000000001
    ensures forall k :: 0 <= k < 64 && k % 9 != 0 ==> data[k] == 0.0
  {
    hide Diagonal, Std, View;
    var d := Diagonal(Std(position, velocity, height));
    forall k: nat | k < 64 ensures data[k] == d(k / 8, k % 8) {
      StoredAt(data, k);
    }
    forall i: nat | i < 8 ensures data[9 * i] == d(i, i) {
      Quotient(i);
    }
    forall k | 0 <= k < 64 && k % 9 != 0 ensures data[k] == 0.0 {
      OffDiagonal(k);
      DeviationsExactly(position, velocity, height, k / 8, k % 8);
    }
    forall i: nat | i < 8 {
      DeviationsExactly(position, velocity, height, i, i);
    }
    assert data[0] == data[9 * 0] && data[9] == data[9 * 1] && data[27] == data[9 * 3];
    assert data[36] == data[9 * 4] && data[45] == data[9 * 5] && data[63] == data[9 * 7];
    assert data[18] == data[9 * 2] && data[54] == data[9 * 6];
  }

  lemma StoredAt(data: seq<real>, k: nat)
    requires |data| == 64 && k < 64
    ensures View(data, RowMajor)(k / 8, k % 8) == data[k]
  {
  }

  lemma Quotient(i: nat)
    requires i < 8
    ensures 9 * i / 8 == i && 9 * i % 8 == i
  {
  }

  lemma OffDiagonal(k: nat)
    requires k < 64 && k % 9 != 0
    ensures k / 8 != k % 8
  {
  }

  /** memset to zero, then the squared deviations on the diagonal. */
  method FillDiagonal(data: array<real>, position: real, velocity: real, height: real)
    requires data.Length == N * N
    modifies data
    ensures forall i: nat, j: nat :: i < N && j < N ==>
      View(data[..], RowMajor)(i, j) == Diagonal(Std(position, velocity, height))(i, j)
  {
    var std := Std(position, velocity, height);
    forall i | 0 <= i < N * N {
      data[i] := 0.0;
    }
    hide Std, Diagonal, View;
    ZeroView(data[..], Diagonal(std));
    var row: nat := 0;
    while row < N
      invariant row <= N
      invariant DiagonalUpTo(View(data[..], RowMajor), Diagonal(std), row)
    {
      ghost var before := data[..];
      var v := std(row) * std(row);
      data[Index(RowMajor, row, row)] := v;
      assert data[..] == before[Index(RowMajor, row, row) := v];
      DiagonalNext(before, std, row, v);
      row := row + 1;
    }
  }

  /** Rows before `row` are those of `d`, the others are zero. */
  ghost predicate DiagonalUpTo(m: Mat, d: Mat, row: nat) {
    forall k: nat, l: nat :: k < N && l < N ==> m(k, l) == if k < row then d(k, l) else 0.0
  }

  lemma ZeroView(data: seq<real>, d: Mat)
    requires |data| == N * N && forall i :: 0 <= i < N * N ==> data[i] == 0.0
    ensures DiagonalUpTo(View(data, RowMajor), d, 0)
  {
  }

  lemma DiagonalNext(before: seq<real>, std: Vec, row: nat, v: real)
    requires |before| == N * N && row < N && DiagonalUpTo(View(before, RowMajor), Diagonal(std), row)
    requires v == std(row) * std(row)
    ensures DiagonalUpTo(View(before[Index(RowMajor, row, row) := v], RowMajor), Diagonal(std), row + 1)
  {
    var after := before[Index(RowMajor, row, row) := v];
    forall k: nat, l: nat | k < N && l < N
      ensures View(after, RowMajor)(k, l) == if k < row + 1 then Diagonal(std)(k, l) else 0.0
    {
      ViewUpdate(before, RowMajor, row, row, v, k, l);
    }
  }

  /** The two products, the second in the order of the covariance's tag. */
  lemma ProductsCompute(zeros: seq<real>, before: seq<real>, temp: seq<real>, diagonal: seq<real>, after: seq<real>,
                        motion: seq<real>, tag: Order, std: Vec)
    requires |zeros| == |before| == |temp| == |diagonal| == |after| == |motion| == N * N
    requires forall i: nat, l: nat :: i < N && l < N ==>
      View(temp, RowMajor)(i, l) ==
        Gemm(1.0, Op(View(motion, RowMajor), false), Op(View(before, RowMajor), false), 0.0,
             View(zeros, RowMajor))(i, l)
    requires forall i: nat, j: nat :: i < N && j < N ==> View(diagonal, RowMajor)(i, j) == Diagonal(std)(i, j)
    requires forall i: nat, j: nat :: i < N && j < N ==>
      View(after, tag)(i, j) ==
        Gemm(1.0, Op(View(temp, tag), false), Op(View(motion, tag), true), 1.0, View(diagonal, tag))(i, j)
    ensures var a, p := View(motion, RowMajor), View(before, RowMajor);
      forall i: nat, j: nat :: i < N && j < N ==>
        View(after, RowMajor)(i, j) == Computed(tag, a, p, Diagonal(std), N)(i, j)
  {
    hide Product, View, Diagonal;
    var a, p, t := View(motion, RowMajor), View(before, RowMajor), View(temp, RowMajor);
    assert forall i: nat, l: nat :: i < N && l < N ==> t(i, l) == Product(a, p, N)(i, l);
    forall i: nat, j: nat | i < N && j < N
      ensures View(after, RowMajor)(i, j) == Computed(tag, a, p, Diagonal(std), N)(i, j)
    {
      if tag == RowMajor {
        ProductEq(t, Flip(a), Product(a, p, N), Flip(a), N, i, j);
      } else {
        ColumnEntry(temp, diagonal, after, motion, i, j);
        ProductEq(Flip(a), t, Flip(a), Product(a, p, N), N, i, j);
      }
    }
  }

  /** One entry of the second product in column order, read back by rows. */
  lemma ColumnEntry(temp: seq<real>, diagonal: seq<real>, after: seq<real>, motion: seq<real>, i: nat, j: nat)
    requires |temp| == |diagonal| == |after| == |motion| == N * N && i < N && j < N
    requires View(after, ColMajor)(j, i) ==
      Gemm(1.0, Op(View(temp, ColMajor), false), Op(View(motion, ColMajor), true), 1.0, View(diagonal, ColMajor))(j, i)
    ensures View(after, RowMajor)(i, j) ==
      Product(Flip(View(motion, RowMajor)), View(temp, RowMajor), N)(i, j) + View(diagonal, RowMajor)(i, j)
  {
    hide Product, View, Index;
    var a, t := View(motion, RowMajor), View(temp, RowMajor);
    var ac, tc := View(motion, ColMajor), View(temp, ColMajor);
    FlippedView(after, j, i);
    FlippedView(diagonal, j, i);
    FlipProduct(tc, Flip(ac), N, j, i);
    forall k: nat | k < N ensures Flip(Flip(ac))(i, k) == Flip(a)(i, k) && Flip(tc)(k, j) == t(k, j) {
      FlippedView(motion, i, k);
      FlippedView(temp, j, k);
    }
    ProductEq(Flip(Flip(ac)), Flip(tc), Flip(a), t, N, i, j);
  }
}
