# Chess board model

A Dafny model of the board data structures behind a drag-and-drop chess board
(`src/chess.ts`). There is no rules engine in the system: a board is a square
grid of optional values, a chess board is an 8 by 8 grid of pieces that can be
moved from one square to another, and a visual board adds the hover and drag
state of the user interface on top.

Modules, one per component of `src/chess.ts`:

- `Wrappers` (`wrappers.dfy`): `Option`, standing for the source's `T | null`.
- `Positions` (`positions.dfy`): `Pos` with `samePos`, and the on-board test.
- `Grids` (`grids.dfy`): the abstract contents of a board as rows of cells,
  and the pure functions that specify the board class. Among them is
  `Enumerate`, the row-major enumeration behind `values()`, proved to visit
  position `(i % size, i / size)` at index `i`.
- `Boards` (`board.dfy`): the class `Board<T>` over a `size` by `size`
  `array2`. Its constructor and `clone` fill the array with nested loops.
  `set` and `remove` write one cell in place. `values()` is a method that
  collects the whole enumeration. The unit test of `src/chess.test.ts` is the
  method `BasicBoardManipulation`.
- `Pieces` (`pieces.dfy`): colours, kinds and pieces, the starting position,
  `MovePiece` (what `move` does to the grid), the square colour computed with
  a bitwise exclusive or, and the hover flag.
- `ChessBoards` (`chess_boards.dfy`): the classes `LogicalChessBoard`
  (starting setup, `move`, `pieces`) and `VisualChessBoard` (the four drag
  handlers, `clone`, `squares`).

Three behaviours of the code that are easy to misread:

- `move(p, p)` on an occupied square does not leave the piece where it was.
  The code writes the piece to `p` and then empties `p`, so the piece is
  deleted and `true` is still returned.
- The drag handlers update the visual board in place; they make no copy.
  Nothing in the repository calls the handlers, `clone` or `squares`.
- `onDragEnd` leaves `draggingFrom` as it was.

## Model

| member | source | states |
|---|---|---|
| `Positions.SamePos` | src/chess.ts:14-16 | two positions are the same exactly when they are equal as values |
| `Grids.EmptyGrid` | src/chess.ts:30-41 | the empty board of side n has n rows of n cells and every position reads as empty |
| `Grids.Put` | src/chess.ts:66-78 | writing c at p keeps the board square, p then reads c, and every other position reads what it read before |
| `Grids.RemoveEmptyIsNoop` | src/chess.ts:59-68 | removing from a position that holds nothing leaves the whole board unchanged |
| `Grids.EnumerateAt` | src/chess.ts:93-99 | the enumeration has size*size items and item i is position (i % size, i / size) with its value, so rows are outer and columns inner |
| `Grids.EnumerateIndexOf` | src/chess.ts:93-99 | conversely, every on-board position p occurs in the enumeration, at index p.y*size + p.x, with its value |
| `Boards.Board.constructor` | src/chess.ts:30-42 | without a supplied array, the new board has a fresh size by size array whose contents are the empty grid; with one, the board uses that very array |
| `Boards.Board.Get` | src/chess.ts:86-88 | the value read at p is the cell at p of the abstract contents (empty reads as None) |
| `Boards.Board.Set` | src/chess.ts:76-78 | the new contents are the old contents with p holding the value; nothing else changes |
| `Boards.Board.Remove` | src/chess.ts:59-68 | the new contents are the old contents with p empty; nothing else changes |
| `Boards.Board.Clone` | src/chess.ts:47-57 | the clone has the same size and the same contents and is a fresh object over a fresh array, so later writes to either board leave the other alone |
| `Boards.SetOnClone` | src/chess.ts:47-57 | setting a cell of a clone changes the clone only; when the value differs, the clone and the original then have different contents |
| `Boards.Board.Values` | src/chess.ts:93-99 | the nested loops return exactly the row-major enumeration of the current contents |
| `Boards.BasicBoardManipulation` | src/chess.test.ts:3-10 | on a new 8 by 8 board, two writes of "knight" read back as "knight" and the untouched cell (7, 7) reads as empty |
| `Pieces.StartingGridIsUnique` | src/chess.ts:143-165 | the starting-position predicate fixes every one of the 64 squares: two grids satisfying it are equal |
| `Pieces.MovePiece` | src/chess.ts:176-184 | moving from an empty square changes nothing; otherwise the target holds the piece (overwriting any occupant) and the source is empty, except that moving onto the same square deletes the piece; all other squares keep their contents |
| `Pieces.XorLowBit` | src/chess.ts:271 | the lowest bit of x ^ y is the parity of x + y |
| `Pieces.SquareAt` | src/chess.ts:271-274 | a square keeps its position and piece, is white exactly when x + y is even, and is hovered exactly when it is the hovered position |
| `Pieces.SquaresOfBoard` | src/chess.ts:269-276 | square i of the board is at column i % size of row i / size, holds that cell's piece, is white exactly when column plus row is even, and is hovered exactly when it is the hovered position |
| `Pieces.NeighboursDiffer` | src/chess.ts:271-272 | squares sharing a side have different colours |
| `ChessBoards.LogicalChessBoard.constructor` | src/chess.ts:143-166 | without a board, it makes a fresh 8 by 8 board in the starting position; with one, it uses that board |
| `ChessBoards.PlaceStartingPieces` | src/chess.ts:146-163 | on an empty 8 by 8 board, the pawn loop and the back-rank loop produce the starting position: black back rank on row 0 in the order Rook, Knight, Bishop, Queen, King, Bishop, Knight, Rook; black pawns on row 1; white pawns on row 6; white back rank on row 7; rows 2 to 5 empty |
| `ChessBoards.LogicalChessBoard.Move` | src/chess.ts:176-184 | the result is true exactly when the source square held a piece, and the board becomes MovePiece of the old board |
| `ChessBoards.LogicalChessBoard.Pieces` | src/chess.ts:186-190 | the pieces are the board's row-major enumeration |
| `ChessBoards.VisualChessBoard.constructor` | src/chess.ts:219-225 | the hover and drag positions are the given ones, over the given board or a fresh one in the starting position |
| `ChessBoards.VisualChessBoard.Clone` | src/chess.ts:227-233 | same hover and drag positions, a fresh board with the same size and contents |
| `ChessBoards.VisualChessBoard.OnDragEnter` | src/chess.ts:238-240 | the hovered position becomes the entered one; the drag start and the board are unchanged |
| `ChessBoards.VisualChessBoard.OnDragLeave` | src/chess.ts:245-247 | nothing is hovered; the drag start and the board are unchanged |
| `ChessBoards.VisualChessBoard.OnDragStart` | src/chess.ts:252-254 | the drag start becomes the given position; the hovered position and the board are unchanged |
| `ChessBoards.VisualChessBoard.OnDragEnd` | src/chess.ts:259-264 | nothing is hovered, the drag start is kept, and the board becomes MovePiece from the drag start to the drop position when a drag start is recorded, and is unchanged otherwise |
| `ChessBoards.VisualChessBoard.Squares` | src/chess.ts:269-276 | the squares are SquaresOf the board's row-major enumeration with the current hovered position |

## Left out

- The lazy generators `values()`, `pieces()` and `squares()` are modelled as methods that return the whole sequence at once.
- JavaScript's behaviour for positions off the board (reads of `undefined`, sparse writes) is not modelled: every access requires a position on the board.
- `Pieces.SquareAt`: `^` in JavaScript first truncates its operands to 32-bit integers. The model uses exclusive or on unbounded naturals, which agrees for coordinates below 2^31.
- `Pieces.SquareAt`: when nothing is hovered the source's `hovered` field is `null` rather than `false`; the model uses `false`.
- `Boards.Board.constructor`: a supplied array must be `size` by `size`; the source would accept ragged nested arrays, which no caller passes.
- `ChessBoards.VisualChessBoard.OnDragEnter` and `ChessBoards.VisualChessBoard.OnDragStart` require the position to be on the board. The source does not check this; the model keeps every remembered position on the board.
- `VisualChessBoard` extends `LogicalChessBoard` in the source; the model has it hold a `LogicalChessBoard` and call its `move` and `pieces`.
- The unit test in `src/chess.test.ts` creates its board with `Board.ofSize(8)`, which `src/chess.ts` does not define; `BasicBoardManipulation` uses the constructor instead.
- The browser's drag-and-drop event wiring is not part of this model: no file of the repository connects the handlers to events.
- `pages/index.tsx` is a static placeholder page (a title and a greeting) and `tailwind.config.js` is styling configuration; neither holds board logic, so neither is modelled.
