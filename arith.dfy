/** Integer division facts used to move between a pixel's (column, row)
    coordinates and its row-major offset `row * width + column`. Dafny's `/`
    and `%` are Euclidean; for the non-negative operands used here they agree
    with JavaScript's. */
module Arith {

  lemma MulAtLeast(k: int, r: int)
    requires k >= 1 && r > 0
    ensures k * r >= r
  {
  }

  lemma MulMonotone(a: int, b: int, r: int)
    requires a <= b && r > 0
    ensures a * r <= b * r
  {
    if a < b {
      MulAtLeast(b - a, r);
      assert (b - a) * r == b * r - a * r;
    }
  }

  /** Quotient and remainder are determined by `a == q * r + m` with `0 <= m < r`. */
  lemma DivModUnique(a: int, r: int, q: int, m: int)
    requires r > 0 && a == q * r + m && 0 <= m < r
    ensures a / r == q && a % r == m
  {
    var q', m' := a / r, a % r;
    assert a == q' * r + m' && 0 <= m' < r;
    assert (q - q') * r == m' - m;
    if q > q' {
      MulAtLeast(q - q', r);
    } else if q < q' {
      MulAtLeast(q' - q, r);
    }
  }

  lemma ModShift(a: int, r: int)
    requires r > 0
    ensures (a + r) % r == a % r
  {
    DivModUnique(a + r, r, a / r + 1, a % r);
  }

  /** A positive number whose remainder is zero is at least the divisor. */
  lemma MultipleAtLeast(a: int, r: int)
    requires r > 0 && 0 < a && a % r == 0
    ensures a >= r
  {
    if a < r {
      DivModUnique(a, r, 0, a);
    }
  }

  /** The offset of pixel (i, j) lies inside the frame and gives back (i, j). */
  lemma OffsetOf(w: int, h: int, i: int, j: int)
    requires w > 0 && 0 <= i < w && 0 <= j < h
    ensures 0 <= j * w + i < w * h
    ensures (j * w + i) % w == i && (j * w + i) / w == j
  {
    DivModUnique(j * w + i, w, j, i);
    MulMonotone(j + 1, h, w);
    assert (j + 1) * w == j * w + w;
  }

  /** Every offset inside the frame is the offset of a pixel inside the frame. */
  lemma CoordinatesOf(w: int, h: int, p: int)
    requires w > 0 && 0 <= p < w * h
    ensures 0 <= p % w < w && 0 <= p / w < h
    ensures p == (p / w) * w + p % w
  {
    if p / w >= h {
      MulMonotone(h, p / w, w);
    }
  }
}
