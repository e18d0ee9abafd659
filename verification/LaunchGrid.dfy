/** cuda_function_set_blocks of tools/cuda-api.c: how many blocks of threads are launched for n elements,
    in one dimension while that fits and in a nearly square grid beyond. */
module LaunchGrid {

  datatype Dim3 = Dim3(x: int, y: int, z: int)

  const MAX_GRID_X: nat := 65535
  const INT_MAX: nat := 0x7fff_ffff

  /** The least r with r * r >= k, searched from `r` upwards. */
  function CeilSqrtFrom(k: nat, r: nat): (s: nat)
    requires r > 0 ==> (r - 1) * (r - 1) < k
    ensures s * s >= k && (s > 0 ==> (s - 1) * (s - 1) < k)
    decreases k - r
  {
    if r * r >= k then r else
      assert r < k by { SquareGrows(r); }
      CeilSqrtFrom(k, r + 1)
  }

  lemma SquareGrows(r: nat)
    ensures r <= r * r
  {
  }

  /** ceil(sqrt(k)) */
  function CeilSqrt(k: nat): (s: nat)
    ensures s * s >= k && (s > 0 ==> (s - 1) * (s - 1) < k)
  {
    CeilSqrtFrom(k, 0)
  }

  lemma SquareMonotone(a: nat, b: nat)
    requires a <= b
    ensures a * a <= b * b
  {
  }

  lemma CeilSqrtAtMost(k: nat, m: nat)
    ensures CeilSqrt(k) <= m <==> k <= m * m
  {
    if CeilSqrt(k) <= m {
      SquareMonotone(CeilSqrt(k), m);
    } else {
      SquareMonotone(m, CeilSqrt(k) - 1);
    }
  }

  function Blocks(n: nat, size: nat): nat
    requires size > 0
  {
    (n + size - 1) / size
  }

  /** Rounding up as the code does it in the second branch. */
  lemma RoundedUp(n: nat, d: nat)
    requires n > 0 && d > 0
    ensures var q := (n - 1) / d + 1; (q - 1) * d < n <= q * d
  {
    var q := (n - 1) / d;
    assert n - 1 == q * d + (n - 1) % d;
    assert (q + 1) * d == q * d + d;
  }

  lemma BlocksRoundUp(n: nat, size: nat)
    requires n > 0 && size > 0
    ensures Blocks(n, size) == (n - 1) / size + 1
    ensures (Blocks(n, size) - 1) * size < n <= Blocks(n, size) * size
  {
    RoundedUp(n, size);
    assert n + size - 1 == (n - 1) + size;
    AddDivisor(n - 1, size);
  }

  lemma AddDivisor(m: nat, d: nat)
    requires d > 0
    ensures (m + d) / d == m / d + 1
  {
    var q := m / d;
    assert m == q * d + m % d;
    QuotientIs(m + d, d, q + 1, m % d);
  }

  lemma QuotientIs(m: nat, d: nat, q: nat, r: nat)
    requires d > 0 && r < d && m == q * d + r
    ensures m / d == q
  {
    var p := m / d;
    assert m == p * d + m % d;
    if p < q {
      ProductStep(p, q, d);
    } else if q < p {
      ProductStep(q, p, d);
    }
  }

  lemma ProductStep(a: nat, b: nat, d: nat)
    requires a < b
    ensures a * d + d <= b * d
  {
    assert (b - a) * d == b * d - a * d;
    assert (b - a - 1) * d >= 0;
    assert (b - a) * d == (b - a - 1) * d + d;
  }

  /** The grid over unbounded integers. */
  function Grid(n: nat, size: nat): Dim3
    requires size > 0
  {
    var k := Blocks(n, size);
    if k <= MAX_GRID_X then Dim3(k, 1, 1)
    else
      var x := CeilSqrt(k);
      assert x * size > 0 by { Positive(k, size); }
      Dim3(x, (n - 1) / (x * size) + 1, 1)
  }

  lemma Positive(k: nat, size: nat)
    requires k > 0 && size > 0
    ensures CeilSqrt(k) * size > 0
  {
    assert CeilSqrt(k) > 0;
    ProductStep(0, CeilSqrt(k), size);
  }

  lemma Scales(a: nat, b: nat, d: nat)
    requires a <= b
    ensures a * d <= b * d
  {
    assert (b - a) * d == b * d - a * d;
  }

  lemma MoreThanOneRow(n: nat, size: nat)
    requires size > 0 && Blocks(n, size) > MAX_GRID_X
    ensures Grid(n, size).y > 1
  {
    hide CeilSqrt, Blocks;
    var k := Blocks(n, size);
    var x := CeilSqrt(k);
    assert n > 0 by { NoElementsNoBlocks(size); }
    Positive(k, size);
    BlocksRoundUp(n, size);
    RoundedUp(n, x * size);
    assert x <= k - 1 by {
      assert (k - 1) * (k - 1) >= 2 * (k - 1) by { Scales(2, k - 1, k - 1); }
      CeilSqrtAtMost(k, k - 1);
    }
    Scales(x, k - 1, size);
  }

  lemma NoElementsNoBlocks(size: nat)
    requires size > 0
    ensures Blocks(0, size) == 0
  {
    QuotientIs(size - 1, size, 0, size - 1);
  }

  /** Every element gets a thread, and one row less would not do. */
  lemma Covers(n: nat, size: nat)
    requires n > 0 && size > 0
    ensures var g := Grid(n, size);
      && g.z == 1 && 0 < g.x && 0 < g.y
      && (g.y - 1) * (g.x * size) < n <= g.y * (g.x * size)
      && (g.y == 1 ==> (g.x - 1) * size < n)
  {
    hide CeilSqrt, Blocks;
    var k := Blocks(n, size);
    BlocksRoundUp(n, size);
    if k > MAX_GRID_X {
      Positive(k, size);
      RoundedUp(n, CeilSqrt(k) * size);
      MoreThanOneRow(n, size);
    }
  }

  /** Up to 65535 blocks there is one row of exactly as many as are needed. */
  lemma OneRow(n: nat, size: nat)
    requires n > 0 && size > 0
    ensures Blocks(n, size) <= 65535 <==> Grid(n, size).y == 1
    ensures Blocks(n, size) <= 65535 ==>
      var g := Grid(n, size); g.y == 1 && g.z == 1 && (g.x - 1) * size < n <= g.x * size
  {
    hide CeilSqrt, Blocks;
    Covers(n, size);
    if Blocks(n, size) > MAX_GRID_X {
      MoreThanOneRow(n, size);
    }
  }

  /** In the two-dimensional branch there are no more rows than columns, and no squarer grid has fewer columns. */
  lemma NearlySquare(n: nat, size: nat)
    requires size > 0 && Blocks(n, size) > MAX_GRID_X
    ensures var g := Grid(n, size);
      && 1 < g.y <= g.x
      && forall side: nat :: n <= side * (side * size) ==> g.x <= side
  {
    hide CeilSqrt, Blocks;
    var k := Blocks(n, size);
    var x := CeilSqrt(k);
    assert n > 0 by { NoElementsNoBlocks(size); }
    Positive(k, size);
    BlocksRoundUp(n, size);
    RoundedUp(n, x * size);
    MoreThanOneRow(n, size);
    var y := Grid(n, size).y;
    Scales(k, x * x, size);
    assert x * x * size == x * (x * size) by { Associates(x, x, size); }
    if y > x {
      Scales(x, y - 1, x * size);
    }
    forall side: nat | n <= side * (side * size) ensures x <= side {
      Associates(side, side, size);
      if side * side < k {
        Scales(side * side, k - 1, size);
      }
      CeilSqrtAtMost(k, side);
    }
  }

  lemma Associates(a: nat, b: nat, c: nat)
    ensures a * b * c == a * (b * c)
  {
  }

  /** Both dimensions stay within the limit of 65535 exactly up to 65535 squared blocks. */
  lemma WithinLimits(n: nat, size: nat)
    requires size > 0
    ensures var g := Grid(n, size);
      g.x <= 65535 && g.y <= 65535 <==> Blocks(n, size) <= 65535 * 65535
  {
    hide CeilSqrt, Blocks;
    var k := Blocks(n, size);
    if k > MAX_GRID_X {
      NearlySquare(n, size);
      CeilSqrtAtMost(k, MAX_GRID_X);
    }
  }

  /** A size_t narrowed to int. */
  function AsInt32(v: int): int {
    var low := v % 0x1_0000_0000;
    if low <= INT_MAX then low else low - 0x1_0000_0000
  }

  /** The grid for a block count that is an int. */
  function Split(n: nat, size: nat, k: int): Dim3
    requires size > 0
  {
    if k <= MAX_GRID_X then Dim3(k, 1, 1)
    else
      assert CeilSqrt(k) * size > 0 by { Positive(k, size); }
      Dim3(CeilSqrt(k), AsInt32((n - 1) / (CeilSqrt(k) * size) + 1), 1)
  }

  /** The grid with the block count narrowed to int, which is how the code computes it. */
  function NarrowGrid(n: nat, size: nat): Dim3
    requires size > 0
  {
    Split(n, size, AsInt32(Blocks(n, size)))
  }

  lemma NarrowGridExactly(n: nat, size: nat)
    requires size > 0
    ensures NarrowGrid(n, size) == Grid(n, size) <==> Blocks(n, size) <= INT_MAX
  {
    hide CeilSqrt, Blocks;
    var k := Blocks(n, size);
    if k > MAX_GRID_X {
      NearlySquare(n, size);
      if k <= INT_MAX {
        CeilSqrtAtMost(k, 46341);
      } else if AsInt32(k) > MAX_GRID_X {
        assert k > 65536 * 65536;
        CeilSqrtAtMost(k, 65536);
        CeilSqrtAtMost(AsInt32(k), 46341);
      }
    }
  }

  const SIZE_LIMIT: nat := 0x1_0000_0000_0000_0000

  /** The grid as computed in size_t and int. When n + size - 1 wraps around, what is left is below the block
      size and makes no block. */
  function MachineGrid(n: nat, size: nat): Dim3
    requires 0 < size < SIZE_LIMIT && n < SIZE_LIMIT
  {
    if n + size - 1 >= SIZE_LIMIT then Dim3(0, 1, 1) else NarrowGrid(n, size)
  }

  /** The block size narrowed to int. */
  function MachineBlock(size: nat): Dim3 { Dim3(AsInt32(size), 1, 1) }

  predicate FitsMachine(n: nat, size: nat)
    requires size > 0
  {
    n + size - 1 < SIZE_LIMIT && Blocks(n, size) <= INT_MAX && size <= INT_MAX
  }

  lemma GridHarmless(n: nat, size: nat)
    requires 0 < size < SIZE_LIMIT && n < SIZE_LIMIT
    ensures MachineGrid(n, size) == Grid(n, size) <==> n + size - 1 < SIZE_LIMIT && Blocks(n, size) <= INT_MAX
  {
    hide CeilSqrt, Blocks, Grid, NarrowGrid;
    NarrowGridExactly(n, size);
    if n + size - 1 >= SIZE_LIMIT {
      Covers(n, size);
    }
  }

  /** Exactly when grid and block are the intended ones: nothing wraps, and block count and block size fit an int. */
  lemma NarrowingHarmless(n: nat, size: nat)
    requires 0 < size < SIZE_LIMIT && n < SIZE_LIMIT
    ensures MachineGrid(n, size) == Grid(n, size) && MachineBlock(size) == Dim3(size, 1, 1) <==> FitsMachine(n, size)
  {
    hide Blocks, Grid, MachineGrid;
    GridHarmless(n, size);
  }

  lemma WrappedSum(n: nat, size: nat)
    requires 0 < size < SIZE_LIMIT && n < SIZE_LIMIT
    ensures (n + size - 1) % SIZE_LIMIT / size == if n + size - 1 < SIZE_LIMIT then Blocks(n, size) else 0
  {
    var sum := n + size - 1;
    if sum >= SIZE_LIMIT {
      assert sum % SIZE_LIMIT == sum - SIZE_LIMIT < size;
      QuotientIs(sum - SIZE_LIMIT, size, 0, sum - SIZE_LIMIT);
    }
  }

  /** The grid from the block count as the machine computes it. */
  lemma MachineCount(n: nat, size: nat)
    requires 0 < size < SIZE_LIMIT && n < SIZE_LIMIT
    ensures MachineGrid(n, size) == Split(n, size, AsInt32((n + size - 1) % SIZE_LIMIT / size))
  {
    hide CeilSqrt, Blocks;
    WrappedSum(n, size);
  }

  /** Every element gets a thread of what is then launched, and one row less would not do. */
  lemma LaunchCovers(n: nat, size: nat)
    requires 0 < size < SIZE_LIMIT && 0 < n < SIZE_LIMIT && FitsMachine(n, size)
    ensures var g, b := MachineGrid(n, size), MachineBlock(size);
      && 0 < g.x <= MAX_GRID_X && 0 < g.y <= MAX_GRID_X && g.z == 1 && b.x > 0 && b.y == 1 && b.z == 1
      && (g.y - 1) * (g.x * b.x) < n <= g.y * (g.x * b.x)
  {
    hide CeilSqrt, Blocks, Grid, MachineGrid, MachineBlock;
    NarrowingHarmless(n, size);
    Covers(n, size);
    WithinLimits(n, size);
  }

  /** 2^32 blocks are launched as none at all. */
  lemma NarrowingLosesBlocks()
    ensures MachineGrid(0x1_0000_0000, 1) == Dim3(0, 1, 1)
  {
    hide CeilSqrt;
  }

  /** A block of 2^32 threads is launched without any. */
  lemma NarrowingLosesThreads()
    ensures MachineGrid(1, 0x1_0000_0000) == Grid(1, 0x1_0000_0000) == Dim3(1, 1, 1)
    ensures MachineBlock(0x1_0000_0000) == Dim3(0, 1, 1)
  {
  }

  /** The part of cuda_function_t that the launch reads. */
  class CudaFunction {
    var grid: Dim3
    var block: Dim3

    constructor ()
      ensures grid == Dim3(0, 0, 0) && block == Dim3(0, 0, 0)
    {
      grid, block := Dim3(0, 0, 0), Dim3(0, 0, 0);
    }

    /** cuda_function_set_blocks. `fault`: a block size of zero divides by zero. */
    method SetBlocks(n: nat, size: nat) returns (fault: bool)
      requires size < SIZE_LIMIT && n < SIZE_LIMIT
      modifies this
      ensures fault <==> size == 0
      ensures fault ==> grid == old(grid) && block == old(block)
      ensures !fault ==> grid == MachineGrid(n, size) && block == MachineBlock(size)
    {
      hide CeilSqrt, Blocks, AsInt32, MachineGrid;
      if size == 0 {
        return true;
      }
      MachineCount(n, size);
      var k := AsInt32((n + size - 1) % SIZE_LIMIT / size);
      var x, y := k, 1;
      if x > MAX_GRID_X {
        x := CeilSqrt(k);
        Positive(k, size);
        y := AsInt32((n - 1) / (x * size) + 1);
      }
      grid := Dim3(x, y, 1);
      block := Dim3(AsInt32(size), 1, 1);
      return false;
    }
  }
}
