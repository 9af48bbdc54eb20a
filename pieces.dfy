/**
  Chess values of `src/chess.ts`: colours, kinds and pieces, the starting
  layout, what a move does to the grid, and how a square is drawn.
*/
module Pieces {
  import opened Wrappers
  import opened Positions
  import opened Grids

  datatype Color = Black | White

  datatype PieceKind = Pawn | Knight | Bishop | Rook | Queen | King

  datatype Piece = Piece(color: Color, kind: PieceKind)

  /** The side of a chess board. */
  const Side: nat := 8

  /** The order of the pieces on the first and last rows, from column 0. */
  const BackRank: seq<PieceKind> := [Rook, Knight, Bishop, Queen, King, Bishop, Knight, Rook]

  /**
    The standard starting position: black's back rank on row 0 and its pawns
    on row 1, white's pawns on row 6 and its back rank on row 7, rows 2 to 5
    empty.
  */
  predicate IsStartingGrid(g: Grid<Piece>)
    requires IsSquare(g, Side)
  {
    && (forall x :: 0 <= x < Side ==> Get(g, Side, Pos(x, 0)) == Some(Piece(Black, BackRank[x])))
    && (forall x :: 0 <= x < Side ==> Get(g, Side, Pos(x, 1)) == Some(Piece(Black, Pawn)))
    && (forall x :: 0 <= x < Side ==> Get(g, Side, Pos(x, 6)) == Some(Piece(White, Pawn)))
    && (forall x :: 0 <= x < Side ==> Get(g, Side, Pos(x, 7)) == Some(Piece(White, BackRank[x])))
    && (forall y, x :: 2 <= y <= 5 && 0 <= x < Side ==> Get(g, Side, Pos(x, y)) == None)
  }

  /** The starting position fixes every one of the 64 squares. */
  lemma StartingGridIsUnique(g: Grid<Piece>, h: Grid<Piece>)
    requires IsSquare(g, Side) && IsSquare(h, Side)
    requires IsStartingGrid(g) && IsStartingGrid(h)
    ensures g == h
  {
    forall p | InBounds(p, Side)
      ensures Get(g, Side, p) == Get(h, Side, p)
    {
      assert p == Pos(p.x, p.y);
    }
    GridExtensionality(g, h, size := Side);
  }

  /**
    What `move(at, to)` does to the grid. With nothing at `at` the grid is
    unchanged. Otherwise the piece is written at `to` (over whatever stood
    there) and then `at` is emptied, so a move onto the same square deletes
    the piece.
  */
  function MovePiece(g: Grid<Piece>, size: nat, at: Pos, to: Pos): (r: Grid<Piece>)
    requires IsSquare(g, size) && InBounds(at, size) && InBounds(to, size)
    ensures IsSquare(r, size)
    ensures Get(g, size, at) == None ==> r == g
    ensures Get(g, size, at).Some? && at != to ==>
      && Get(r, size, to) == Get(g, size, at)
      && Get(r, size, at) == None
    ensures Get(g, size, at).Some? && at == to ==> Get(r, size, at) == None
    ensures forall q :: InBounds(q, size) && q != at && q != to ==> Get(r, size, q) == Get(g, size, q)
  {
    match Get(g, size, at)
    case None => g
    case Some(piece) => Put(Put(g, size, to, Some(piece)), size, at, None)
  }

  /** Bitwise exclusive or of two naturals, bit by bit from the lowest. */
  function Xor(a: nat, b: nat): nat
    decreases a + b
  {
    if a == 0 && b == 0 then 0
    else 2 * Xor(a / 2, b / 2) + (if a % 2 == b % 2 then 0 else 1)
  }

  /** The lowest bit of `a ^ b` is the parity of `a + b`. */
  lemma {:induction false} XorLowBit(a: nat, b: nat)
    ensures Xor(a, b) % 2 == (a + b) % 2
  {
    if a != 0 || b != 0 {
      var high := Xor(a / 2, b / 2);
      var half := a / 2 + b / 2;
      if a % 2 == b % 2 {
        assert Xor(a, b) == 2 * high;
        assert a + b == 2 * half + 2 * (a % 2);
      } else {
        assert Xor(a, b) == 2 * high + 1;
        assert a + b == 2 * half + 1;
      }
    }
  }

  /** How a square is drawn: its colour, its piece and whether it is hovered. */
  datatype Square = Square(pos: Pos, color: Color, piece: Option<Piece>, hovered: bool)

  /**
    The square at `p` holding `piece`: white when `(x ^ y) & 1` is 0, that is
    when `x + y` is even, and hovered exactly when `p` is the hovered position.
  */
  function SquareAt(p: Pos, piece: Option<Piece>, hoveredPos: Option<Pos>): (s: Square)
    requires 0 <= p.x && 0 <= p.y
    ensures s.pos == p && s.piece == piece
    ensures s.color == White <==> (p.x + p.y) % 2 == 0
    ensures s.hovered <==> hoveredPos == Some(p)
  {
    XorLowBit(p.x, p.y);
    var isWhite := Xor(p.x, p.y) % 2 == 0;
    var hovered := hoveredPos.Some? && SamePos(p, hoveredPos.value);
    Square(p, if isWhite then White else Black, piece, hovered)
  }

  /** The squares drawn for a sequence of entries, one per entry, in the same order. */
  function SquaresOf(entries: seq<Entry<Piece>>, hoveredPos: Option<Pos>): (squares: seq<Square>)
    requires forall e :: e in entries ==> 0 <= e.pos.x && 0 <= e.pos.y
    ensures |squares| == |entries|
    ensures forall j :: 0 <= j < |entries| ==> squares[j] == SquareAt(entries[j].pos, entries[j].value, hoveredPos)
  {
    seq(|entries|, j requires 0 <= j < |entries| => SquareAt(entries[j].pos, entries[j].value, hoveredPos))
  }

  /**
    Drawing the enumeration of a board: square `i` is the one at column
    `i % size` of row `i / size`, with that cell's piece, white exactly when
    the column and row add up to an even number, hovered exactly when it is
    the hovered position.
  */
  lemma SquaresOfBoard(g: Grid<Piece>, size: nat, hoveredPos: Option<Pos>, i: nat)
    requires IsSquare(g, size) && i < size * size
    ensures |SquaresOf(Enumerate(g, size), hoveredPos)| == size * size
    ensures var s := SquaresOf(Enumerate(g, size), hoveredPos)[i];
      && s.pos == Pos(i % size, i / size)
      && s.piece == Get(g, size, Pos(i % size, i / size))
      && (s.color == White <==> (i % size + i / size) % 2 == 0)
      && (s.hovered <==> hoveredPos == Some(Pos(i % size, i / size)))
  {
    EnumerateAt(g, size, i);
  }

  /** Squares that share a side have different colours. */
  lemma NeighboursDiffer(p: Pos, q: Pos)
    requires 0 <= p.x && 0 <= p.y && 0 <= q.x && 0 <= q.y
    requires (q.x == p.x + 1 && q.y == p.y) || (q.x == p.x && q.y == p.y + 1)
    ensures SquareAt(p, None, None).color != SquareAt(q, None, None).color
  {
  }
}
