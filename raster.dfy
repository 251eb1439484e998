/**
 * The drawing surface: a grid of RGB pixels written in place, addressed as
 * canvas[row, column], and the rectangle fill of a 2-D canvas context, which
 * clips to the canvas.
 */
module Raster {
  import opened Colors

  /** Pixel (row, col) lies in the w-by-h rectangle whose top-left pixel is (top, left). */
  predicate InRect(row: int, col: int, left: int, top: int, w: int, h: int) {
    left <= col < left + w && top <= row < top + h
  }

  /** Paints the part of the rectangle that lies on the canvas; every other pixel keeps its colour. */
  method FillRect(canvas: array2<RGB>, left: nat, top: nat, w: nat, h: nat, color: RGB)
    modifies canvas
    ensures forall r, c :: 0 <= r < canvas.Length0 && 0 <= c < canvas.Length1 ==>
              canvas[r, c] == if InRect(r, c, left, top, w, h) then color else old(canvas[r, c])
  {
    var bottom := if top + h < canvas.Length0 then top + h else canvas.Length0;
    var right := if left + w < canvas.Length1 then left + w else canvas.Length1;
    var row := top;
    while row < bottom
      invariant top <= row && (row <= bottom || row == top)
      invariant forall r, c :: 0 <= r < canvas.Length0 && 0 <= c < canvas.Length1 ==>
                  canvas[r, c] == if InRect(r, c, left, top, w, row - top) then color else old(canvas[r, c])
    {
      var col := left;
      while col < right
        invariant left <= col && (col <= right || col == left)
        invariant forall r, c :: 0 <= r < canvas.Length0 && 0 <= c < canvas.Length1 ==>
                    canvas[r, c] == if InRect(r, c, left, top, w, row - top) || (r == row && left <= c < col)
                                    then color else old(canvas[r, c])
      {
        canvas[row, col] := color;
        col := col + 1;
      }
      row := row + 1;
    }
  }

  /**
   * With a positive block size m, p lies in block q (the m pixels from q * m
   * on) exactly when p / m == q: the block a pixel belongs to is found by
   * division.
   */
  lemma DivSpan(p: int, q: int, m: int)
    requires 0 < m
    ensures q * m <= p < q * m + m <==> p / m == q
  {
    var d := p / m;
    assert d * m <= p < d * m + m;
    if q * m <= p < q * m + m {
      if d < q {
        MulMonotone(d + 1, q, m);
      } else if q < d {
        MulMonotone(q + 1, d, m);
      }
    }
  }

  lemma MulMonotone(a: int, b: int, m: int)
    requires a <= b && 0 <= m
    ensures a * m <= b * m
  {
    assert b * m - a * m == (b - a) * m;
  }

  /** A run of n blocks of size m is n blocks long with nothing left over. */
  lemma MulDiv(n: int, m: int)
    requires 0 < m
    ensures (n * m) / m == n && (n * m) % m == 0
  {
    DivSpan(n * m, n, m);
  }
}
