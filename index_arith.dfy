/** Non-linear index arithmetic for row-major pixel buffers. */
module IndexArith {
  /** Multiplying by a non-negative factor keeps the order. */
  lemma MulMonotone(a: int, b: int, w: int)
    requires a <= b && 0 <= w
    ensures a * w <= b * w
  {
    assert b * w - a * w == (b - a) * w;
  }

  /** A row-major index `y * w + x` of a `w` by `h` grid lies inside the grid. */
  lemma RowMajorBound(y: int, x: int, w: int, h: int)
    requires 0 <= y < h && 0 <= x < w
    ensures 0 <= y * w + x < h * w
  {
    MulMonotone(y + 1, h, w);
    MulMonotone(0, y, w);
    assert (y + 1) * w == y * w + w;
  }

  /** A row-major index recovers its row and column by division and remainder. */
  lemma RowMajorDivMod(y: int, x: int, w: int)
    requires 0 <= y && 0 <= x < w
    ensures (y * w + x) / w == y && (y * w + x) % w == x
  {
    var n := y * w + x;
    var q, r := n / w, n % w;
    assert n == q * w + r && 0 <= r < w;
    if q > y {
      MulMonotone(y + 1, q, w);
      assert false;
    } else if q < y {
      MulMonotone(q + 1, y, w);
      assert false;
    }
  }

  /** Nearest-neighbour scaling: `i * n / d` maps `0 .. d - 1` into `0 .. n - 1`. */
  lemma ScaledIndexBelow(i: int, n: int, d: int)
    requires 0 <= i < d && 0 < n
    ensures 0 <= (i * n) / d < n
  {
    MulMonotone(i, d - 1, n);
    MulMonotone(0, i, n);
    var q := (i * n) / d;
    assert i * n == q * d + (i * n) % d;
    if q >= n {
      MulMonotone(n, q, d);
      assert false;
    }
    if q < 0 {
      MulMonotone(q, -1, d);
      assert false;
    }
  }

  /** Splitting an index of a `w`-wide grid of `h` rows into its row and column. */
  lemma RowOfIndex(i: int, w: int, h: int)
    requires 0 < w && 0 <= i < h * w
    ensures 0 <= i / w < h && 0 <= i % w < w && i == (i / w) * w + i % w
  {
    if i / w >= h {
      MulMonotone(h, i / w, w);
      assert false;
    }
  }
}
