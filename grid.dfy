/** Neighbour lookup on a row-major grid (EQS_Utils).
    A cell index splits into a column `index % width` and a row `index / width`;
    the eight surrounding cells are visited in the fixed order of the offset
    tables `Dx`/`Dy`, and only those inside the grid are kept. */
module Grid {

  /** Column offsets of the eight neighbours, in lookup order. */
  const Dx: seq<int> := [-1, 0, 1, -1, 1, -1, 0, 1]
  /** Row offsets of the eight neighbours, in lookup order. */
  const Dy: seq<int> := [-1, -1, -1, 0, 0, 1, 1, 1]

  predicate InGrid(col: int, row: int, width: int, height: int)
  {
    0 <= col < width && 0 <= row < height
  }

  /** (col', row') is one of the eight cells around (col, row). */
  predicate Adjacent(col: int, row: int, col': int, row': int)
  {
    -1 <= col' - col <= 1 && -1 <= row' - row <= 1 && (col' != col || row' != row)
  }

  /** n is an in-grid cell touching the cell of `index`, both read row-major. */
  predicate IsNeighbor(index: int, n: int, width: int, height: int)
    requires 0 < width
  {
    0 <= n && InGrid(n % width, n / width, width, height) &&
    Adjacent(index % width, index / width, n % width, n / width)
  }

  predicate StrictlyIncreasing(s: seq<int>)
  {
    forall i, j :: 0 <= i < j < |s| ==> s[i] < s[j]
  }

  /** Linear index of the cell reached through offset k from (col, row). */
  function OffsetCell(col: int, row: int, width: int, k: nat): int
    requires k < 8
  {
    (row + Dy[k]) * width + (col + Dx[k])
  }

  predicate OffsetInGrid(col: int, row: int, width: int, height: int, k: nat)
    requires k < 8
  {
    InGrid(col + Dx[k], row + Dy[k], width, height)
  }

  /** The in-grid neighbours reached through offsets k..7, in table order. */
  function NeighborsFrom(col: int, row: int, width: int, height: int, k: nat): (r: seq<int>)
    requires k <= 8
    ensures |r| <= 8 - k
    decreases 8 - k
  {
    if k == 8 then []
    else if OffsetInGrid(col, row, width, height, k) then
      [OffsetCell(col, row, width, k)] + NeighborsFrom(col, row, width, height, k + 1)
    else
      NeighborsFrom(col, row, width, height, k + 1)
  }

  /** The cells NeighborsFrom keeps are exactly the in-grid offset cells from k on. */
  lemma {:induction false} NeighborsFromMembers(col: int, row: int, width: int, height: int, k: nat)
    requires k <= 8
    ensures forall n :: n in NeighborsFrom(col, row, width, height, k) <==>
      exists j :: k <= j < 8 && OffsetInGrid(col, row, width, height, j) && n == OffsetCell(col, row, width, j)
    decreases 8 - k
  {
    if k < 8 {
      NeighborsFromMembers(col, row, width, height, k + 1);
    }
  }

  /** GetNeighborIndices: the in-bounds cells among the eight around `index`, in
      the order of the offset tables, which is increasing index order.
      The source splits the index with C#'s truncating `%` and `/`; these agree
      with Dafny's Euclidean operators because `index` and `width` are not negative. */
  function NeighborIndices(index: int, width: int, height: int): (r: seq<int>)
    requires 0 <= index && 0 < width
    ensures |r| <= 8
    ensures StrictlyIncreasing(r)
  {
    NeighborsIncreasing(index % width, index / width, width, height, 0);
    NeighborsFrom(index % width, index / width, width, height, 0)
  }

  /** The lookup returns exactly the in-grid cells adjacent to `index`: all in
      range, never `index` itself, never wrapped round an edge. */
  lemma NeighborsExactly(index: int, width: int, height: int)
    requires 0 <= index && 0 < width
    ensures forall n :: n in NeighborIndices(index, width, height) <==> IsNeighbor(index, n, width, height)
    ensures forall n :: n in NeighborIndices(index, width, height) ==> 0 <= n < width * height && n != index
  {
    NeighborsCharacterized(index, width, height);
    forall n | n in NeighborIndices(index, width, height) ensures 0 <= n < width * height && n != index {
      assert IsNeighbor(index, n, width, height);
      CellBelowArea(n, width, height);
    }
  }

  /** Row-major coordinates are recovered by `%` and `/`. */
  lemma DivModUnique(row: int, col: int, width: int)
    requires 0 <= col < width && 0 <= row
    ensures (row * width + col) % width == col && (row * width + col) / width == row
  {
    var n := row * width + col;
    var q, m := n / width, n % width;
    assert n == q * width + m;
    if q > row {
      MulAtLeast(q - row, width);
    } else if q < row {
      MulAtLeast(row - q, width);
    }
  }

  lemma {:induction false} MulAtLeast(a: int, width: int)
    requires 1 <= a && 0 < width
    ensures a * width >= width
    decreases a
  {
    if a > 1 {
      MulAtLeast(a - 1, width);
      assert a * width == (a - 1) * width + width;
    }
  }

  lemma CellBelowArea(n: int, width: int, height: int)
    requires 0 < width && 0 <= n && n / width < height
    ensures n < width * height
  {
    var q := n / width;
    assert n == q * width + n % width;
    MulMonotone(q + 1, height, width);
    assert (q + 1) * width == q * width + width;
  }

  /** Multiplication by a non-negative factor is monotone. */
  lemma {:induction false} MulMonotone(a: int, b: int, c: int)
    requires 0 <= a <= b && 0 <= c
    ensures a * c <= b * c
    decreases b - a
  {
    if a < b {
      MulMonotone(a + 1, b, c);
      assert (a + 1) * c == a * c + c;
    }
  }


  lemma NeighborsCharacterized(index: int, width: int, height: int)
    requires 0 <= index && 0 < width
    ensures forall n :: n in NeighborsFrom(index % width, index / width, width, height, 0) <==>
      IsNeighbor(index, n, width, height)
  {
    forall n
      ensures n in NeighborsFrom(index % width, index / width, width, height, 0) <==>
        IsNeighbor(index, n, width, height)
    {
      if n in NeighborsFrom(index % width, index / width, width, height, 0) {
        NeighborSound(index, n, width, height);
      }
      if IsNeighbor(index, n, width, height) {
        NeighborComplete(index, n, width, height);
      }
    }
  }

  lemma NeighborSound(index: int, n: int, width: int, height: int)
    requires 0 <= index && 0 < width
    requires n in NeighborsFrom(index % width, index / width, width, height, 0)
    ensures IsNeighbor(index, n, width, height)
  {
    var col, row := index % width, index / width;
    NeighborsFromMembers(col, row, width, height, 0);
    var j :| 0 <= j < 8 && OffsetInGrid(col, row, width, height, j) && n == OffsetCell(col, row, width, j);
    OffsetCellCoordinates(col, row, width, height, j);
    OffsetIsUnit(j);
  }

  /** An in-grid offset cell splits back into the offset coordinates. */
  lemma OffsetCellCoordinates(col: int, row: int, width: int, height: int, j: nat)
    requires j < 8 && 0 < width && OffsetInGrid(col, row, width, height, j)
    ensures OffsetCell(col, row, width, j) % width == col + Dx[j]
    ensures OffsetCell(col, row, width, j) / width == row + Dy[j]
    ensures 0 <= OffsetCell(col, row, width, j)
  {
    DivModUnique(row + Dy[j], col + Dx[j], width);
    if row + Dy[j] > 0 { MulAtLeast(row + Dy[j], width); }
  }

  lemma OffsetIsUnit(j: nat)
    requires j < 8
    ensures -1 <= Dx[j] <= 1 && -1 <= Dy[j] <= 1 && (Dx[j] != 0 || Dy[j] != 0)
  {
  }

  lemma NeighborComplete(index: int, n: int, width: int, height: int)
    requires 0 <= index && 0 < width
    requires IsNeighbor(index, n, width, height)
    ensures n in NeighborsFrom(index % width, index / width, width, height, 0)
  {
    var col, row := index % width, index / width;
    var c, r := n % width, n / width;
    assert n == r * width + c;
    var j := OffsetOf(c - col, r - row);
    assert col + Dx[j] == c && row + Dy[j] == r;
    assert OffsetInGrid(col, row, width, height, j);
    assert OffsetCell(col, row, width, j) == n;
    NeighborsFromMembers(col, row, width, height, 0);
  }

  /** The table position of a non-zero unit offset. */
  function OffsetOf(dx: int, dy: int): (j: nat)
    requires -1 <= dx <= 1 && -1 <= dy <= 1 && (dx != 0 || dy != 0)
    ensures j < 8 && Dx[j] == dx && Dy[j] == dy
  {
    (dy + 1) * 3 + (dx + 1) - (if dy > 0 || (dy == 0 && dx > 0) then 1 else 0)
  }

  /** Table order is row-major order, so in-grid offsets give increasing indices. */
  lemma OffsetOrder(col: int, row: int, width: int, height: int, i: nat, j: nat)
    requires i < j < 8
    requires OffsetInGrid(col, row, width, height, i) && OffsetInGrid(col, row, width, height, j)
    ensures OffsetCell(col, row, width, i) < OffsetCell(col, row, width, j)
  {
    if Dy[i] < Dy[j] {
      assert (row + Dy[j]) * width >= (row + Dy[i]) * width + width;
    }
  }

  lemma {:induction false} NeighborsIncreasing(col: int, row: int, width: int, height: int, k: nat)
    requires k <= 8
    ensures StrictlyIncreasing(NeighborsFrom(col, row, width, height, k))
    decreases 8 - k
  {
    if k < 8 {
      var rest := NeighborsFrom(col, row, width, height, k + 1);
      NeighborsIncreasing(col, row, width, height, k + 1);
      NeighborsFromMembers(col, row, width, height, k + 1);
      if OffsetInGrid(col, row, width, height, k) {
        forall n | n in rest ensures OffsetCell(col, row, width, k) < n {
          var j :| k + 1 <= j < 8 && OffsetInGrid(col, row, width, height, j) && n == OffsetCell(col, row, width, j);
          OffsetOrder(col, row, width, height, k, j);
        }
        var r := [OffsetCell(col, row, width, k)] + rest;
        forall a, b | 0 <= a < b < |r| ensures r[a] < r[b] {
          if a > 0 { assert r[a] == rest[a - 1] && r[b] == rest[b - 1]; }
          else { assert r[b] in rest; }
        }
      }
    }
  }

  /** Cells of a grid whose linear index is in range lie in a row below `height`. */
  lemma AreaBelowCell(n: int, width: int, height: int)
    requires 0 < width && 0 <= n < width * height
    ensures 0 <= n / width < height
  {
    var q := n / width;
    assert n == q * width + n % width;
  }

  /** Neighbourhood is symmetric for in-grid cells: the offset table is closed under negation. */
  lemma NeighborSymmetric(i: int, j: int, width: int, height: int)
    requires 0 < width && 0 <= i < width * height && 0 <= j < width * height
    ensures j in NeighborIndices(i, width, height) <==> i in NeighborIndices(j, width, height)
  {
    AreaBelowCell(i, width, height);
    AreaBelowCell(j, width, height);
    NeighborsExactly(i, width, height);
    NeighborsExactly(j, width, height);
    var ci, ri, cj, rj := i % width, i / width, j % width, j / width;
    assert InGrid(ci, ri, width, height) && InGrid(cj, rj, width, height);
    assert Adjacent(ci, ri, cj, rj) <==> Adjacent(cj, rj, ci, ri);
    assert IsNeighbor(i, j, width, height) <==> IsNeighbor(j, i, width, height);
  }

  /** Number of in-range coordinates among c-1, c, c+1 for 0 <= c < n. */
  function Span(c: int, n: int): int
  {
    (if c > 0 then 1 else 0) + 1 + (if c < n - 1 then 1 else 0)
  }

  /** The neighbour count of an in-grid cell is the size of its clipped 3x3 block, minus itself. */
  lemma NeighborCount(index: int, width: int, height: int)
    requires 0 < width && 0 <= index < width * height
    ensures |NeighborIndices(index, width, height)| == Span(index % width, width) * Span(index / width, height) - 1
  {
    var c, r := index % width, index / width;
    AreaBelowCell(index, width, height);
    var a, b := c > 0, c < width - 1;
    var u, d := r > 0, r < height - 1;
    var n := |NeighborsFrom(c, r, width, height, 0)|;
    assert n == (if a && u then 1 else 0) + (if u then 1 else 0) + (if b && u then 1 else 0)
      + (if a then 1 else 0) + (if b then 1 else 0)
      + (if a && d then 1 else 0) + (if d then 1 else 0) + (if b && d then 1 else 0) by {
      assert |NeighborsFrom(c, r, width, height, 0)| == (if a && u then 1 else 0) + |NeighborsFrom(c, r, width, height, 1)|;
      assert |NeighborsFrom(c, r, width, height, 1)| == (if u then 1 else 0) + |NeighborsFrom(c, r, width, height, 2)|;
      assert |NeighborsFrom(c, r, width, height, 2)| == (if b && u then 1 else 0) + |NeighborsFrom(c, r, width, height, 3)|;
      assert |NeighborsFrom(c, r, width, height, 3)| == (if a then 1 else 0) + |NeighborsFrom(c, r, width, height, 4)|;
      assert |NeighborsFrom(c, r, width, height, 4)| == (if b then 1 else 0) + |NeighborsFrom(c, r, width, height, 5)|;
      assert |NeighborsFrom(c, r, width, height, 5)| == (if a && d then 1 else 0) + |NeighborsFrom(c, r, width, height, 6)|;
      assert |NeighborsFrom(c, r, width, height, 6)| == (if d then 1 else 0) + |NeighborsFrom(c, r, width, height, 7)|;
      assert |NeighborsFrom(c, r, width, height, 7)| == (if b && d then 1 else 0) + |NeighborsFrom(c, r, width, height, 8)|;
    }
    var sc, sr := Span(c, width), Span(r, height);
    assert sc * sr == (if a then 1 else 0) * sr + sr + (if b then 1 else 0) * sr;
  }

  /** On a 4x4 grid a corner cell has 3 neighbours, an edge cell 5 and an interior cell 8. */
  lemma Grid4x4Counts(index: int)
    requires 0 <= index < 16
    ensures |NeighborIndices(index, 4, 4)| ==
      if index == 0 || index == 3 || index == 12 || index == 15 then 3
      else if index == 5 || index == 6 || index == 9 || index == 10 then 8
      else 5
  {
    NeighborCount(index, 4, 4);
    var c, r := index % 4, index / 4;
    assert index == r * 4 + c;
  }
}
