/**
  The abstract contents of a square board: row `y` of the grid holds the
  cells of that row, cell `x` of a row holds the optional value stored at
  column `x`. Every operation of the board class is specified by one of the
  functions here.
*/
module Grids {
  import opened Wrappers
  import opened Positions

  type Grid<T> = seq<seq<Option<T>>>

  /** One item of the enumeration: a position and what it holds. */
  datatype Entry<T> = Entry(pos: Pos, value: Option<T>)

  /** The grid has `size` rows of `size` cells. */
  predicate IsSquare<T>(g: Grid<T>, size: nat)
  {
    |g| == size && forall y :: 0 <= y < size ==> |g[y]| == size
  }

  /** The value stored at `p`. */
  function Get<T>(g: Grid<T>, size: nat, p: Pos): Option<T>
    requires IsSquare(g, size) && InBounds(p, size)
  {
    g[p.y][p.x]
  }

  /** A board of side `size` on which no position holds a value. */
  function EmptyGrid<T>(size: nat): (g: Grid<T>)
    ensures IsSquare(g, size)
    ensures forall p :: InBounds(p, size) ==> Get(g, size, p) == None
  {
    seq(size, _ => seq(size, _ => None))
  }

  /** The grid with cell `p` replaced by `c` (a value for `set`, `None` for `remove`). */
  function Put<T>(g: Grid<T>, size: nat, p: Pos, c: Option<T>): (r: Grid<T>)
    requires IsSquare(g, size) && InBounds(p, size)
    ensures IsSquare(r, size)
    ensures Get(r, size, p) == c
    ensures forall q :: InBounds(q, size) && q != p ==> Get(r, size, q) == Get(g, size, q)
  {
    g[p.y := g[p.y][p.x := c]]
  }

  /** Two square grids with equal cells are equal. */
  lemma {:induction false} GridExtensionality<T>(g: Grid<T>, h: Grid<T>, size: nat)
    requires IsSquare(g, size) && IsSquare(h, size)
    requires forall p :: InBounds(p, size) ==> Get(g, size, p) == Get(h, size, p)
    ensures g == h
  {
    forall y | 0 <= y < size
      ensures g[y] == h[y]
    {
      forall x | 0 <= x < size
        ensures g[y][x] == h[y][x]
      {
        assert Get(g, size, Pos(x, y)) == Get(h, size, Pos(x, y));
      }
    }
  }

  /** Removing from a position that holds nothing leaves the grid as it was. */
  lemma RemoveEmptyIsNoop<T>(g: Grid<T>, size: nat, p: Pos)
    requires IsSquare(g, size) && InBounds(p, size)
    requires Get(g, size, p) == None
    ensures Put(g, size, p, None) == g
  {
    GridExtensionality(Put(g, size, p, None), g, size);
  }

  /** The entries of row `y`, from column 0 up. */
  function RowEntries<T>(g: Grid<T>, size: nat, y: nat): (entries: seq<Entry<T>>)
    requires IsSquare(g, size) && y < size
    ensures forall e :: e in entries ==> InBounds(e.pos, size)
  {
    seq(size, x requires 0 <= x < size => Entry(Pos(x, y), g[y][x]))
  }

  /** The entries of rows `0 .. k-1`, row after row. */
  function Rows<T>(g: Grid<T>, size: nat, k: nat): (entries: seq<Entry<T>>)
    requires IsSquare(g, size) && k <= size
    ensures forall e :: e in entries ==> InBounds(e.pos, size)
  {
    if k == 0 then [] else Rows(g, size, k - 1) + RowEntries(g, size, k - 1)
  }

  /** `values()`: every position with its value, rows outer, columns inner. */
  function Enumerate<T>(g: Grid<T>, size: nat): (entries: seq<Entry<T>>)
    requires IsSquare(g, size)
    ensures |entries| == size * size
    ensures forall e :: e in entries ==> InBounds(e.pos, size)
  {
    RowsLength(g, size, size);
    Rows(g, size, size)
  }

  /** Euclidean division recovers the row and the column from a row-major index. */
  lemma DivModOfRowMajor(size: nat, y: nat, x: nat)
    requires x < size
    ensures (y * size + x) / size == y && (y * size + x) % size == x
  {
    var i := y * size + x;
    var q, r := i / size, i % size;
    assert (q - y) * size == x - r by {
      assert i == q * size + r;
      assert (q - y) * size == q * size - y * size;
    }
    MulBounds(q - y, size);
  }

  lemma MulBounds(a: int, b: nat)
    ensures a >= 1 ==> a * b >= b
    ensures a <= -1 ==> a * b + b <= 0
  {
  }

  lemma {:induction false} RowsLength<T>(g: Grid<T>, size: nat, k: nat)
    requires IsSquare(g, size) && k <= size
    ensures |Rows(g, size, k)| == k * size
  {
    if k > 0 {
      RowsLength(g, size, k - 1);
      assert k * size == (k - 1) * size + size;
    }
  }

  lemma {:induction false} RowsAt<T>(g: Grid<T>, size: nat, k: nat, i: nat)
    requires IsSquare(g, size) && k <= size && i < k * size
    ensures |Rows(g, size, k)| == k * size
    ensures Rows(g, size, k)[i] == Entry(Pos(i % size, i / size), g[i / size][i % size])
  {
    RowsLength(g, size, k);
    RowsLength(g, size, k - 1);
    var m := (k - 1) * size;
    assert k * size == m + size;
    if i < m {
      RowsAt(g, size, k - 1, i);
    } else {
      var x := i - m;
      DivModOfRowMajor(size, k - 1, x);
      assert Rows(g, size, k)[i] == RowEntries(g, size, k - 1)[x];
    }
  }

  /**
    The enumeration visits all `size * size` positions in row-major order:
    item `i` is the position `(i % size, i / size)` with its value.
  */
  lemma EnumerateAt<T>(g: Grid<T>, size: nat, i: nat)
    requires IsSquare(g, size) && i < size * size
    ensures |Enumerate(g, size)| == size * size
    ensures Enumerate(g, size)[i] == Entry(Pos(i % size, i / size), Get(g, size, Pos(i % size, i / size)))
  {
    RowsAt(g, size, size, i);
  }

  /** Conversely, position `p` is visited at index `p.y * size + p.x`. */
  lemma EnumerateIndexOf<T>(g: Grid<T>, size: nat, p: Pos)
    requires IsSquare(g, size) && InBounds(p, size)
    ensures p.y * size + p.x < |Enumerate(g, size)|
    ensures Enumerate(g, size)[p.y * size + p.x] == Entry(p, Get(g, size, p))
  {
    var i := p.y * size + p.x;
    assert i < size * size by {
      assert size * size - p.y * size == (size - p.y) * size;
      MulBounds(size - p.y, size);
    }
    DivModOfRowMajor(size, p.y, p.x);
    EnumerateAt(g, size, i);
  }
}
