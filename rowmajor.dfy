/** Row-major placement shared by both directions: pixel `i` of a grid `w` wide sits at column
    `i % w`, row `i / w` (`let x = i % width; let y = i / width;`). Indices are `usize` and
    non-negative, so Rust's truncating division and Dafny's Euclidean division agree. */
module RowMajor {
  import opened Common

  /** Index `i` splits into a column below `w` and a row, and it is inside a `w` by `h` grid
      exactly when its row is below `h`. */
  lemma CellOfIndex(i: nat, w: nat, h: nat)
    requires w > 0
    ensures i == (i / w) * w + i % w && 0 <= i % w < w
    ensures i < w * h <==> i / w < h
  {
    var y, x := i / w, i % w;
    assert i == y * w + x;
    if y < h {
      assert (y + 1) * w <= h * w by { MulLe(y + 1, h, w); }
    } else {
      assert h * w <= y * w by { MulLe(h, y, w); }
    }
  }

  /** Column `x` of row `y` is index `y * w + x`, and that index maps back to `(x, y)`. */
  lemma IndexOfCell(x: nat, y: nat, w: nat)
    requires x < w
    ensures (y * w + x) / w == y && (y * w + x) % w == x
  {
    var i := y * w + x;
    var q, r := i / w, i % w;
    assert q * w + r == y * w + x;
    if q < y {
      assert (q + 1) * w <= y * w by { MulLe(q + 1, y, w); }
    } else if q > y {
      assert (y + 1) * w <= q * w by { MulLe(y + 1, q, w); }
    }
  }

  /** Distinct indices land in distinct cells, so every cell is written at most once. */
  lemma CellsDistinct(i: nat, j: nat, w: nat)
    requires w > 0 && i != j
    ensures i % w != j % w || i / w != j / w
  {
    CellOfIndex(i, w, 0);
    CellOfIndex(j, w, 0);
  }
}
