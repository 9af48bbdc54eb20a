/**
  The chess layer of `src/chess.ts`: a logical board that moves pieces, and
  a visual board that adds the hover and drag state of the user interface.
*/
module ChessBoards {
  import opened Wrappers
  import opened Positions
  import Grids
  import opened Boards
  import opened Pieces

  /** An 8 by 8 board of pieces (or a board handed in by the caller). */
  class LogicalChessBoard {
    const board: Board<Piece>

    predicate Valid()
    {
      board.Valid()
    }

    /**
      Uses `given` when there is one; otherwise builds an empty 8 by 8 board
      and places the standard starting position on it: the pawns first, then
      the back ranks.
    */
    constructor (given: Board?<Piece>)
      requires given != null ==> given.Valid()
      ensures Valid()
      ensures given != null ==> board == given
      ensures given == null ==> fresh(board) && fresh(board.repr) && board.size == Side
      ensures given == null ==> IsStartingGrid(board.Contents())
    {
      var b: Board<Piece>;
      if given == null {
        b := new Board<Piece>(Side, null);
        PlaceStartingPieces(b);
      } else {
        b := given;
      }
      board := b;
    }

    /**
      `move`: reports whether there was a piece at `at`; the grid becomes
      `MovePiece` of the old grid.
    */
    method Move(at: Pos, to: Pos) returns (moved: bool)
      requires Valid() && InBounds(at, board.size) && InBounds(to, board.size)
      modifies board.repr
      ensures Valid()
      ensures moved <==> old(board.Get(at)).Some?
      ensures board.Contents() == MovePiece(old(board.Contents()), board.size, at, to)
    {
      var piece := board.Get(at);
      if piece == None {
        return false;
      }
      board.Set(to, piece.value);
      board.Remove(at);
      return true;
    }

    /** `pieces`: every position with its piece, in the order of `values`. */
    method Pieces() returns (pieces: seq<Grids.Entry<Piece>>)
      requires Valid()
      ensures pieces == Grids.Enumerate(board.Contents(), board.size)
    {
      pieces := board.Values();
    }
  }

  /**
    Places the standard starting position on an empty 8 by 8 board: the
    pawns column by column, then the back ranks in the order of `BackRank`.
  */
  method PlaceStartingPieces(b: Board<Piece>)
    requires b.Valid() && b.size == Side && b.Contents() == Grids.EmptyGrid(Side)
    modifies b.repr
    ensures b.Valid() && IsStartingGrid(b.Contents())
  {
    var x := 0;
    while x < Side
      invariant 0 <= x <= Side
      invariant b.Valid()
      invariant forall p :: InBounds(p, Side) ==> Grids.Get(b.Contents(), Side, p) == PartialSetup(p, x, 0)
    {
      ghost var before := b.Contents();
      b.Set(Pos(x, 1), Piece(Black, Pawn));
      b.Set(Pos(x, 6), Piece(White, Pawn));
      PawnsPlaced(before, b.Contents(), x);
      x := x + 1;
    }
    var orders := BackRank;
    var i := 0;
    while i < |orders|
      invariant 0 <= i <= |orders|
      invariant b.Valid()
      invariant forall p :: InBounds(p, Side) ==> Grids.Get(b.Contents(), Side, p) == PartialSetup(p, Side, i)
    {
      ghost var before := b.Contents();
      b.Set(Pos(i, 0), Piece(Black, orders[i]));
      b.Set(Pos(i, 7), Piece(White, orders[i]));
      BackRankPlaced(before, b.Contents(), i);
      i := i + 1;
    }
    SetupComplete(b.Contents());
  }

  /**
    The starting position while it is being placed: the pawns of the first
    `pawns` columns and the back-rank pieces of the first `backs` columns.
  */
  ghost function PartialSetup(p: Pos, pawns: nat, backs: nat): Option<Piece>
    requires backs <= |BackRank|
    requires 0 <= p.x
  {
    if p.y == 0 && p.x < backs then Some(Piece(Black, BackRank[p.x]))
    else if p.y == 1 && p.x < pawns then Some(Piece(Black, Pawn))
    else if p.y == 6 && p.x < pawns then Some(Piece(White, Pawn))
    else if p.y == 7 && p.x < backs then Some(Piece(White, BackRank[p.x]))
    else None
  }

  lemma PawnsPlaced(g: Grids.Grid<Piece>, h: Grids.Grid<Piece>, x: nat)
    requires x < Side && Grids.IsSquare(g, Side)
    requires forall p :: InBounds(p, Side) ==> Grids.Get(g, Side, p) == PartialSetup(p, x, 0)
    requires h == Grids.Put(Grids.Put(g, Side, Pos(x, 1), Some(Piece(Black, Pawn))), Side, Pos(x, 6), Some(Piece(White, Pawn)))
    ensures forall p :: InBounds(p, Side) ==> Grids.Get(h, Side, p) == PartialSetup(p, x + 1, 0)
  {
  }

  lemma BackRankPlaced(g: Grids.Grid<Piece>, h: Grids.Grid<Piece>, i: nat)
    requires i < Side && Grids.IsSquare(g, Side)
    requires forall p :: InBounds(p, Side) ==> Grids.Get(g, Side, p) == PartialSetup(p, Side, i)
    requires h == Grids.Put(Grids.Put(g, Side, Pos(i, 0), Some(Piece(Black, BackRank[i]))), Side, Pos(i, 7), Some(Piece(White, BackRank[i])))
    ensures forall p :: InBounds(p, Side) ==> Grids.Get(h, Side, p) == PartialSetup(p, Side, i + 1)
  {
  }

  lemma SetupComplete(g: Grids.Grid<Piece>)
    requires Grids.IsSquare(g, Side)
    requires forall p :: InBounds(p, Side) ==> Grids.Get(g, Side, p) == PartialSetup(p, Side, Side)
    ensures IsStartingGrid(g)
  {
  }

  /** The logical board plus the hovered square and the square a drag started from. */
  class VisualChessBoard {
    const chess: LogicalChessBoard
    var hoveredPos: Option<Pos>
    var draggingFrom: Option<Pos>

    /** The board is valid and the two remembered positions, when present, lie on it. */
    predicate Valid()
      reads this
    {
      && chess.Valid()
      && (hoveredPos.Some? ==> InBounds(hoveredPos.value, chess.board.size))
      && (draggingFrom.Some? ==> InBounds(draggingFrom.value, chess.board.size))
    }

    constructor (hoveredPos: Option<Pos>, draggingFrom: Option<Pos>, given: Board?<Piece>)
      requires given != null ==> given.Valid()
      requires hoveredPos.Some? ==> InBounds(hoveredPos.value, if given == null then Side else given.size)
      requires draggingFrom.Some? ==> InBounds(draggingFrom.value, if given == null then Side else given.size)
      ensures Valid()
      ensures this.hoveredPos == hoveredPos && this.draggingFrom == draggingFrom
      ensures given != null ==> chess.board == given
      ensures given == null ==> fresh(chess.board) && fresh(chess.board.repr) && chess.board.size == Side
      ensures given == null ==> IsStartingGrid(chess.board.Contents())
    {
      chess := new LogicalChessBoard(given);
      this.hoveredPos := hoveredPos;
      this.draggingFrom := draggingFrom;
    }

    /** `clone`: the same hover and drag state over a cloned board. */
    method Clone() returns (v: VisualChessBoard)
      requires Valid()
      ensures fresh(v) && fresh(v.chess.board) && fresh(v.chess.board.repr)
      ensures v.Valid()
      ensures v.hoveredPos == hoveredPos && v.draggingFrom == draggingFrom
      ensures v.chess.board.size == chess.board.size
      ensures v.chess.board.Contents() == chess.board.Contents()
    {
      var b := chess.board.Clone();
      v := new VisualChessBoard(hoveredPos, draggingFrom, b);
    }

    /** `onDragEnter`: the entered square becomes the hovered one; nothing else changes. */
    method OnDragEnter(pos: Pos)
      requires Valid() && InBounds(pos, chess.board.size)
      modifies this
      ensures Valid()
      ensures hoveredPos == Some(pos) && draggingFrom == old(draggingFrom)
    {
      hoveredPos := Some(pos);
    }

    /** `onDragLeave`: no square is hovered; nothing else changes. */
    method OnDragLeave()
      requires Valid()
      modifies this
      ensures Valid()
      ensures hoveredPos == None && draggingFrom == old(draggingFrom)
    {
      hoveredPos := None;
    }

    /** `onDragStart`: remembers where the drag started; nothing else changes. */
    method OnDragStart(pos: Pos)
      requires Valid() && InBounds(pos, chess.board.size)
      modifies this
      ensures Valid()
      ensures draggingFrom == Some(pos) && hoveredPos == old(hoveredPos)
    {
      draggingFrom := Some(pos);
    }

    /**
      `onDragEnd`: clears the hover and, when a drag start is remembered,
      moves from there to `pos`. The remembered start is kept.
    */
    method OnDragEnd(pos: Pos)
      requires Valid() && InBounds(pos, chess.board.size)
      modifies this, chess.board.repr
      ensures Valid()
      ensures hoveredPos == None && draggingFrom == old(draggingFrom)
      ensures chess.board.Contents() ==
        if draggingFrom.Some?
        then MovePiece(old(chess.board.Contents()), chess.board.size, draggingFrom.value, pos)
        else old(chess.board.Contents())
    {
      hoveredPos := None;
      if draggingFrom != None {
        var _ := chess.Move(draggingFrom.value, pos);
      }
    }

    /**
      `squares`: one square per position, in the order of `values`; each
      takes its colour from the parity of its coordinates and is hovered
      exactly when it is the hovered position.
    */
    method Squares() returns (squares: seq<Square>)
      requires Valid()
      ensures squares == SquaresOf(Grids.Enumerate(chess.board.Contents(), chess.board.size), hoveredPos)
    {
      var pieces := chess.Pieces();
      squares := [];
      var k := 0;
      while k < |pieces|
        invariant 0 <= k <= |pieces|
        invariant squares == SquaresOf(pieces[..k], hoveredPos)
      {
        var entry := pieces[k];
        squares := squares + [SquareAt(entry.pos, entry.value, hoveredPos)];
        k := k + 1;
      }
      assert pieces[..k] == pieces;
    }
  }
}
