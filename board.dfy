/** The generic square board of `src/chess.ts`, stored as a mutable 2-D array. */
module Boards {
  import opened Wrappers
  import opened Positions
  import Grids

  class Board<T> {
    const size: nat
    /** `repr[y, x]` is the cell at column `x` of row `y`. */
    const repr: array2<Option<T>>

    /** The array is `size` by `size`. */
    predicate Valid()
    {
      repr.Length0 == size && repr.Length1 == size
    }

    /** The abstract contents: the grid the array currently holds. */
    ghost function Contents(): (g: Grids.Grid<T>)
      requires Valid()
      reads repr
      ensures Grids.IsSquare(g, size)
      ensures forall p :: InBounds(p, size) ==> Grids.Get(g, size, p) == repr[p.y, p.x]
    {
      seq(size, (y: int) requires 0 <= y < size reads repr =>
        seq(size, (x: int) requires 0 <= x < size reads repr => repr[y, x]))
    }

    /**
      Builds a board of side `size`. Without `given` every cell is empty;
      with `given` the board uses that very array (this is how `clone`
      hands over its copy).
    */
    constructor (size: nat, given: array2?<Option<T>>)
      requires given != null ==> given.Length0 == size && given.Length1 == size
      ensures Valid() && this.size == size
      ensures given == null ==> fresh(repr) && Contents() == Grids.EmptyGrid(size)
      ensures given != null ==> repr == given
    {
      var cells: array2<Option<T>>;
      if given == null {
        cells := new Option<T>[size, size];
        var y := 0;
        while y < size
          invariant 0 <= y <= size
          invariant forall j, i :: 0 <= j < y && 0 <= i < size ==> cells[j, i] == None
        {
          var x := 0;
          while x < size
            invariant 0 <= x <= size
            invariant forall j, i :: 0 <= j < y && 0 <= i < size ==> cells[j, i] == None
            invariant forall i :: 0 <= i < x ==> cells[y, i] == None
          {
            cells[y, x] := None;
            x := x + 1;
          }
          y := y + 1;
        }
      } else {
        cells := given;
      }
      this.size := size;
      this.repr := cells;
      new;
      if given == null {
        Grids.GridExtensionality(Contents(), Grids.EmptyGrid(size), size);
      }
    }

    /** `get`: the value at `p`, `None` when the cell is empty. */
    function Get(p: Pos): (v: Option<T>)
      requires Valid() && InBounds(p, size)
      reads repr
      ensures v == Grids.Get(Contents(), size, p)
    {
      repr[p.y, p.x]
    }

    /** `set`: stores `value` at `p`, every other cell keeps its value. */
    method Set(p: Pos, value: T)
      requires Valid() && InBounds(p, size)
      modifies repr
      ensures Valid()
      ensures Contents() == Grids.Put(old(Contents()), size, p, Some(value))
    {
      repr[p.y, p.x] := Some(value);
      Grids.GridExtensionality(Contents(), Grids.Put(old(Contents()), size, p, Some(value)), size);
    }

    /** `remove`: empties the cell at `p`, every other cell keeps its value. */
    method Remove(p: Pos)
      requires Valid() && InBounds(p, size)
      modifies repr
      ensures Valid()
      ensures Contents() == Grids.Put(old(Contents()), size, p, None)
    {
      repr[p.y, p.x] := None;
      Grids.GridExtensionality(Contents(), Grids.Put(old(Contents()), size, p, None), size);
    }

    /**
      `clone`: a board of the same size with the same cells, over an array
      of its own, so that later updates of either board leave the other alone.
    */
    method Clone() returns (c: Board<T>)
      requires Valid()
      ensures fresh(c) && fresh(c.repr)
      ensures c.Valid() && c.size == size
      ensures c.Contents() == Contents()
    {
      var copy := new Option<T>[size, size];
      var y := 0;
      while y < size
        invariant 0 <= y <= size
        invariant forall j, i :: 0 <= j < y && 0 <= i < size ==> copy[j, i] == repr[j, i]
      {
        var x := 0;
        while x < size
          invariant 0 <= x <= size
          invariant forall j, i :: 0 <= j < y && 0 <= i < size ==> copy[j, i] == repr[j, i]
          invariant forall i :: 0 <= i < x ==> copy[y, i] == repr[y, i]
        {
          copy[y, x] := Get(Pos(x, y));
          x := x + 1;
        }
        y := y + 1;
      }
      c := new Board(size, copy);
      Grids.GridExtensionality(c.Contents(), Contents(), size);
    }

    /** `values`: every position with its value, row by row, column by column. */
    method Values() returns (entries: seq<Grids.Entry<T>>)
      requires Valid()
      ensures entries == Grids.Enumerate(Contents(), size)
    {
      ghost var g := Contents();
      entries := [];
      var y := 0;
      while y < size
        invariant 0 <= y <= size
        invariant entries == Grids.Rows(g, size, y)
      {
        var x := 0;
        while x < size
          invariant 0 <= x <= size
          invariant entries == Grids.Rows(g, size, y) + Grids.RowEntries(g, size, y)[..x]
        {
          entries := entries + [Grids.Entry(Pos(x, y), Get(Pos(x, y)))];
          x := x + 1;
        }
        y := y + 1;
      }
    }
  }

  /**
    Updating a clone leaves the board it was cloned from as it was: the clone
    holds the update, the original keeps its cells.
  */
  method SetOnClone<T>(b: Board<T>, p: Pos, value: T) returns (c: Board<T>)
    requires b.Valid() && InBounds(p, b.size)
    ensures c.Valid() && c.size == b.size
    ensures c.Contents() == Grids.Put(b.Contents(), b.size, p, Some(value))
    ensures Grids.Get(b.Contents(), b.size, p) != Some(value) ==> c.Contents() != b.Contents()
  {
    c := b.Clone();
    c.Set(p, value);
  }

  /** The unit test of the board: two writes, two reads back, one untouched cell. */
  method BasicBoardManipulation() returns (first: Option<string>, second: Option<string>, untouched: Option<string>)
    ensures first == Some("knight") && second == Some("knight")
    ensures untouched == None
  {
    var board := new Board<string>(8, null);
    board.Set(Pos(0, 0), "knight");
    board.Set(Pos(0, 1), "knight");
    first := board.Get(Pos(0, 0));
    second := board.Get(Pos(0, 1));
    untouched := board.Get(Pos(7, 7));
  }
}
