# Rules engines of a browser mini-games collection, in Dafny

This project models the rules of the browser mini-games in a small games
collection. The page, canvas, timer and storage code is left out. What
remains is integer grids with pure step functions:

- **Chess** (`games/chess/chess.js`), the largest part:
  - pseudo-legal moves per piece;
  - the attack test `isInCheck`, proved equal to "some opponent piece has a pseudo-legal move onto the king";
  - the legal-move filter;
  - `movePiece` with its history entry, captured lists, king cache and promotion hand-off;
  - `promotePawn`, the checkmate and stalemate test;
  - `undoMove`, with round-trip lemmas (a move or a promotion followed by undo gives back the position);
  - the guards of the square-click handler.
- **2048**: sliding and merging a line, moving the whole grid, the game-over test, adding a random tile and the input handler.
- **Connect Four**: the gravity drop, the run counting of `checkDirection`, the win test, the draw and the turn change.
- **Minesweeper**:
  - the cell state machine;
  - the board: mine placement, neighbour counts, flood-fill reveal, flag counting, win test and reset;
  - the game's four-state machine.
- **Tetris**: collision, merge, rotation with wall kicks, moving, dropping and hard-dropping, spawning the next piece, the line sweep with level changes, and scoring.
- **Snake**: the start state, the step with wall, self-collision and growth, food placement and the no-reverse key rule.
- **Pac-Man**: the movement test `canMove`, grid snapping, the two-pixel step, and the ghosts' direction filter and targeting, ghost-house release and frightening.
- **Space Invaders**: box overlap, the bottom-alien test, the fire cooldown and the construction of the player, aliens, shields, bullets and explosions.

Some things are parameters rather than modelled:

- Randomness is a parameter constrained by what the code guarantees: the empty cell and value of a new 2048 tile, the mine cells, the food draws, the next Tetris piece, the erratic moves of Inky and Clyde.
- Positions are whole numbers, except in Space Invaders, where they are reals. Where the source calls `Math.round` or `Math.sqrt`, the model uses integer rounding and squared distances.

Modules follow the source files:

- `ChessBoard`, `ChessMoves`, `ChessAttack`, `ChessGame`, `ChessUi`
- `Game2048`, `Connect4`
- `MinesweeperConstants`, `MinesweeperCell`, `MinesweeperBoard`, `MinesweeperGame`
- `Tetris`, `Snake`
- `PacmanGrid`, `PacmanController`, `PacmanGhosts`
- `SpaceInvadersConstants`, `SpaceInvadersPhysics`
- `Optional`, the shared `Option` type

## Model

| member | source | states |
|---|---|---|
| ChessBoard.ShiftReverse | games/chess/chess.js:443-526 | walking k squares along a ray and k back along the opposite ray returns to the start, square by square |
| ChessBoard.ClearReverse | games/chess/chess.js:352-391 | the squares strictly between two points are empty seen from either end, so a ray from a slider to the king is clear iff the ray from the king back to it is |
| ChessBoard.ShiftBound | games/chess/chess.js:443-526 | corollary of the definitions of `Shift` and `OnBoard`, not a separate result: a ray that starts and ends on the board is at most 7 squares long, so every slide generation stops |
| ChessBoard.Squares | games/chess/chess.js:673-723 | the 64 squares scanned are exactly the on-board positions |
| ChessBoard.InitialBoard | games/chess/chess.js:137-174 | the starting position fills exactly rows 0, 1, 6 and 7 with the back-rank and pawn pieces of `setupPieces`, all on the board |
| ChessMoves.PawnMoves | games/chess/chess.js:410-441 | a pawn's targets are exactly: one empty square forward; two forward from the start row (6 for white, 1 for black) when both squares are empty; one diagonal forward square holding an opponent piece. No target holds an own piece, and `hasMoved` is not read |
| ChessMoves.RayMembership | games/chess/chess.js:443-473 | a square is generated along a ray iff it is on the board, every square before it is empty, and it is not an own piece. So the ray stops at the first occupied square, which is included iff it is an opponent piece |
| ChessMoves.SlidesMembership | games/chess/chess.js:443-532 | a slider's target list holds exactly the targets of its rays, one ray per direction of the rook, bishop or queen |
| ChessMoves.SlidesReach | games/chess/chess.js:443-532 | the same statement in reach form: a slide reaches q iff it is on some ray, the path is clear and q holds no own piece |
| ChessMoves.OffBoardStaysOff | games/chess/chess.js:443-526 | corollary of the definitions of `Shift` and `OnBoard`, not a separate result: once a ray leaves the board it never comes back, which is why generation stops at the edge |
| ChessMoves.Leaps | games/chess/chess.js:475-553 | knight and king targets are exactly the on-board offset squares not holding an own piece (no castling) |
| ChessMoves.PseudoMovesTargets | games/chess/chess.js:264-296 | every pseudo-legal target of an occupied square is on the board, differs from the start and holds no piece of the mover |
| ChessAttack.FirstOccupied | games/chess/chess.js:352-391 | the square `isInCheck` stops at along a ray is an occupied square |
| ChessAttack.FirstOccupiedSpec | games/chess/chess.js:352-391 | it is found iff it lies on the ray, on the board, occupied, with every square before it empty |
| ChessAttack.IsInCheckSameShape | games/chess/chess.js:320-407 | the check test reads only which squares are occupied and each piece's colour and kind, not `hasMoved` |
| ChessAttack.CheckIffAttacked | games/chess/chess.js:320-407 | `isInCheck` on a king holds iff some opponent piece has a pseudo-legal move onto its square. The four hand-written cases (pawn diagonals, knight offsets, first piece on each ray, adjacent king) agree with move generation |
| ChessAttack.CheckImpliesAttacked | games/chess/chess.js:320-407 | every case `isInCheck` reports is a real attack by an opponent piece |
| ChessAttack.AttackedImpliesCheck | games/chess/chess.js:320-407 | every opponent piece able to move onto the king is caught by one of the four cases |
| ChessGame.Apply | games/chess/chess.js:581-586 | applying a move empties the source square, puts the piece on the target square and leaves every other square as it was |
| ChessGame.SafeMoves | games/chess/chess.js:293-294 | the filter keeps exactly the candidate targets after which the mover's king is not in check |
| ChessGame.LegalMoves | games/chess/chess.js:264-296 | `getValidMoves` is empty on an empty square; otherwise its targets are exactly the pseudo-legal targets after which the mover's king is not in check |
| ChessGame.LegalMoveLeavesKingSafe | games/chess/chess.js:264-317 | after a returned move, the mover's king stands on the square `wouldBeInCheck` tests (the target square when the king itself moved), and no opponent piece can move onto it |
| ChessGame.CheckForCheck | games/chess/chess.js:645-671 | the two in-check flags are recomputed from the board and nothing else changes |
| ChessGame.ScanFromSpec | games/chess/chess.js:673-723 | the square-by-square scan finds a square with the property iff one exists at or after the starting index |
| ChessGame.AnyLegalMove | games/chess/chess.js:673-723 | the scan for a legal move answers yes iff some piece of the colour has a legal move |
| ChessGame.Terminal | games/chess/chess.js:673-723 | the game goes on iff the side to move has a legal move. Without one it is checkmate, with the opponent as winner, when that side is in check, and stalemate otherwise |
| ChessGame.CheckForCheckmate | games/chess/chess.js:673-723 | `gameOver` becomes true iff the side to move has no legal move, and is otherwise left as it was |
| ChessGame.FinishTurn | games/chess/chess.js:597-605 | a completed move flips the turn, recomputes both check flags and the game-over flag for the new side, and changes nothing else |
| ChessGame.CapturedOn | games/chess/chess.js:571-578 | the captured piece is whatever stood on the target square, and nothing when it was empty |
| ChessGame.WithCaptured | games/chess/chess.js:571-578 | the captured kind is appended to the list of the captured piece's own colour only |
| ChessGame.Record | games/chess/chess.js:555-591 | the move bookkeeping: the history gains `{from, to, piece, captured, firstMove: !hasMoved}`, the captured list grows, the source square empties, the target holds the moved piece with `hasMoved` set, and the king cache follows a moving king only |
| ChessGame.MovePiece | games/chess/chess.js:555-607 | `movePiece` does that bookkeeping. A pawn reaching row 0 or 7 leaves a pending promotion and does not flip the turn. Any other move flips the turn and recomputes check and game-over |
| ChessGame.Promote | games/chess/chess.js:614-643 | with nothing pending nothing changes. Otherwise the pending square gets a piece of the pawn's colour and the chosen kind, the last history entry records the kind, the pending mark clears, and the turn flips with check and game-over recomputed |
| ChessGame.Unwind | games/chess/chess.js:725-769 | undoing one entry flips the turn back, clears `gameOver`, keeps any pending promotion and touches only the entry's two squares |
| ChessGame.WithoutCapturedUndoes | games/chess/chess.js:737-747 | taking the last captured kind off the captured colour's list undoes the append of `movePiece` |
| ChessGame.Undo | games/chess/chess.js:725-769 | `undoMove` does nothing on an empty history or while a promotion is pending. Otherwise it pops the history, flips the turn, clears `gameOver`, recomputes check and changes only the popped move's two squares |
| ChessGame.UndoKeepsBoard | games/chess/chess.js:725-769 | after undo every occupied square is still a square of the board |
| ChessGame.UndoRecorded | games/chess/chess.js:725-769 | undoing a recorded move gives back exactly the state before it: board, `hasMoved`, kings, both captured lists, turn and flags |
| ChessGame.UndoRevertsMove | games/chess/chess.js:725-769 | a non-promoting `movePiece` followed by `undoMove` is the identity on a live game |
| ChessGame.UndoForgetsDestination | games/chess/chess.js:725-769 | undo does not read what stands on the target square, so the promoted piece there is irrelevant |
| ChessGame.UndoPromoted | games/chess/chess.js:725-769 | undoing a promotion puts the original pawn back and returns to the position before the pawn moved |
| ChessGame.UndoRevertsPromotion | games/chess/chess.js:725-769 | a promoting move, the promotion and undo together are the identity |
| ChessGame.NewGame | games/chess/chess.js:73-174 | a new game has the starting position with the king cache on e1 and e8, white to move, an empty history, empty captured lists, nothing pending, check flags that match the board, and is well formed |
| ChessGame.MoveKeepsKingsConsistent | games/chess/chess.js:581-591 | after a move that does not capture a king, the king cache still names the one square holding each king |
| ChessGame.OpponentKingNotTarget | games/chess/chess.js:264-296 | in a position where the side not to move is not in check, no pseudo-legal move of the mover lands on the opponent's king |
| ChessGame.LegalMoveKeepsPlayable | games/chess/chess.js:555-607 | a legal non-promoting move keeps the position well formed, and the side that just moved is not in check |
| ChessGame.GuardedKing | games/chess/chess.js:320-407 | a king whose eight neighbouring squares are off the board or occupied, with only its own pieces within two squares, is not in check |
| ChessGame.InitialKingSafe | games/chess/chess.js:137-174 | neither king is in check in the starting position |
| ChessGame.NewGamePlayable | games/chess/chess.js:73-101 | a new game is well formed and playable |
| ChessUi.Click | games/chess/chess.js:192-231 | while the game is over or a promotion is pending, a click changes nothing. A click on a listed target of the selection moves there and clears the selection. A click on a piece of the side to move selects it with its legal moves. Any other click clears an existing selection or does nothing |
| ChessUi.ClickMovesLegally | games/chess/chess.js:192-262 | corollary of `ChessUi.Click`'s move case and `SelectionSound`, not a separate result: a move made by a click is always a legal move of a piece of the side to move |
| ChessUi.ClickKeepsSelectionSound | games/chess/chess.js:192-262 | after any click the selection is a piece of the side to move and the shown targets are its legal moves |
| ChessUi.ClickKeepsPlayable | games/chess/chess.js:192-231 | clicks keep a playable game playable |
| ChessUi.UndoKeepingSelection | games/chess/chess.js:800-813 | the undo button and the undo key as written: the game is undone and the selection and its targets are kept |
| ChessUi.StaleSelectionAfterUndo | games/chess/chess.js:725-769 | as written, after undo the kept selection is a piece of the side that is no longer to move, and a click on a kept target still moves it |
| ChessUi.UndoClearingSelection | games/chess/chess.js:247-262 | the undo with the selection cleared, as `clearSelection` allows |
| ChessUi.UndoKeepsOtherColour | games/chess/chess.js:725-769 | after undo, a piece of the former side to move belongs to the side not to move |
| ChessUi.UndoClearingKeepsSound | games/chess/chess.js:247-262 | undo with a cleared selection keeps the click state sound |
| Connect4.RunOwned | games/connect4/connect4.js:156-180 | every cell counted by a run in one direction holds the player's piece |
| Connect4.RunAtLeast | games/connect4/connect4.js:156-180 | a run counts every consecutive owned cell, so it is the maximal run |
| Connect4.LineIffFour | games/connect4/connect4.js:129-180 | the run through a cell along an axis reaches 4 iff some four consecutive cells on that axis, through the cell, all hold its piece |
| Connect4.CheckDirection | games/connect4/connect4.js:156-180 | `checkDirection` answers whether the cell plus the runs in both directions make at least 4 |
| Connect4.CheckWin | games/connect4/connect4.js:129-145 | `checkWin` holds iff one of the four axes has such a line |
| Connect4.WinsIffFour | games/connect4/connect4.js:129-180 | a win is reported iff four in a row pass through the last piece |
| Connect4.DropRow | games/connect4/connect4.js:82-91 | the piece lands in the lowest empty row of the column, and no row exists when the column is full |
| Connect4.DropKeepsPacked | games/connect4/connect4.js:82-94 | dropping keeps every column gravity-packed: no empty cell lies below a filled one |
| Connect4.NewFourThroughDrop | games/connect4/connect4.js:94-109 | on a board without four in a row, a new four can only pass through the dropped piece |
| Connect4.NewGame | games/connect4/connect4.js:29-36 | a new game has an empty 6 by 7 board, player 1 to move, no moves made and the game active |
| Connect4.MakeMove | games/connect4/connect4.js:78-121 | an inactive game or a full column changes nothing. Otherwise the player's piece fills the column's lowest empty cell and the move count grows by one. The game is won iff the new piece makes four, and drawn iff it does not and all 42 cells are full. Either way the game stops and the winner stays current. Otherwise the player alternates |
| Connect4.NewGameInv | games/connect4/connect4.js:29-36 | a new game meets the invariant |
| Connect4.MakeMoveKeepsInv | games/connect4/connect4.js:78-121 | moves keep the invariant: cells hold 0, 1 or 2, columns are packed, the move count equals the number of filled cells, and an active game has no four yet. A win is reported iff the board has four in a row somewhere |
| Game2048.Collapse | games/2048/2048.js:244-297 | sliding a line leaves at most as many tiles as the line held non-empty cells, all non-zero |
| Game2048.Slide | games/2048/2048.js:244-297 | a moved line keeps its length |
| Game2048.SlidePacks | games/2048/2048.js:254-272 | after a slide, no empty cell lies between the wall and a tile |
| Game2048.SlideKeepsSum | games/2048/2048.js:244-353 | a slide keeps the sum of the tile values, since a merge turns v, v into 2v |
| Game2048.StableIffSlid | games/2048/2048.js:244-297 | a line is unchanged by a slide iff it is already packed and no tile can merge into the one before it |
| Game2048.SettleTile | games/2048/2048.js:261-293 | one step of the source's loop over a tile matches the reference slide up to that tile, with the score and the 2048 flag of the merges so far |
| Game2048.SlideTile | games/2048/2048.js:261-271 | the inner loop moves the tile to the first free cell after the packed prefix |
| Game2048.MoveLine | games/2048/2048.js:244-297 | `moveTilesInRow` returns the reference slide, `moved` is true iff the line changed, and the merged score and the 2048 flag are those of the reference merges |
| Game2048.ChainedMerge | games/2048/2048.js:273-293 | as written, a left slide of 2, 2, 4, 0 gives 8, 0, 0, 0 and scores 12, because no tile is marked as already merged |
| Game2048.EqualPairMoves | games/2048/2048.js:273-293 | a full line with two equal neighbours always changes when slid |
| Game2048.MoveGrid | games/2048/2048.js:244-353 | moving the grid slides every row or column, read from the wall in the move's direction, and writes the cells back at the same places |
| Game2048.MovedIffChanged | games/2048/2048.js:184-241 | some line reports a move iff the grid changes |
| Game2048.GameOverIsStuck | games/2048/2048.js:140-163 | when `isGameOver` holds (no empty cell and no equal neighbours), no direction moves anything |
| Game2048.FullNotOverMoves | games/2048/2048.js:140-163 | a full grid that is not over can move left or up |
| Game2048.EmptyCells | games/2048/2048.js:67-90 | the candidate list holds exactly the empty cells |
| Game2048.AddRandomTile | games/2048/2048.js:67-90 | a full grid is unchanged; otherwise exactly one empty cell becomes 2 or 4 |
| Game2048.MoveKeepsTiles | games/2048/2048.js:244-353 | moves keep every tile a power of two from 2 up |
| Game2048.NewGame | games/2048/2048.js:32-55 | a new game holds only valid tiles, has score 0 and the stored best score, and is active and not won |
| Game2048.HandleInput | games/2048/2048.js:184-241 | an inactive game ignores input. The score grows by exactly the merged values, and the won flag latches once a merge makes 2048. When some line moved, a tile is added and the game stays active iff it is not over; otherwise the board is unchanged |
| Game2048.KeepGoing | games/2048/2048.js:438-441 | continuing after a win reactivates the game and changes nothing else |
| Game2048.HandleInputInvariant | games/2048/2048.js:184-241 | input keeps all tiles powers of two and the score between the old score and the best score, and a won game stays won |
| MinesweeperConstants.PresetsPlaceable | games/minesweeper/js/constants.js:6-22 | the three presets leave room for the 3 by 3 safe block, so mine placement ends |
| MinesweeperCell.NewCell | games/minesweeper/js/cell.js:11-18 | a new cell is hidden, not a mine, with no neighbouring mines |
| MinesweeperCell.Reveal | games/minesweeper/js/cell.js:45-59 | `reveal` moves hidden to revealed and reports whether the cell is a mine. A flagged cell stays flagged and a revealed one stays revealed, both reporting false |
| MinesweeperCell.ToggleFlag | games/minesweeper/js/cell.js:65-76 | the flag toggles between hidden and flagged and the answer says whether the cell is now flagged; a revealed cell stays revealed |
| MinesweeperCell.Reset | games/minesweeper/js/cell.js:81-91 | reset gives a new cell |
| MinesweeperCell.ToggleTwice | games/minesweeper/js/cell.js:65-76 | toggling the flag twice gives back the cell |
| MinesweeperCell.RevealedAbsorbing | games/minesweeper/js/cell.js:45-76 | a revealed cell is unchanged by both operations, which answer false |
| MinesweeperCell.RevealIdempotent | games/minesweeper/js/cell.js:45-59 | revealing twice is revealing once, and the second reveal never reports a mine |
| MinesweeperBoard.PlaceMines | games/minesweeper/js/board.js:88-116 | the mines are board cells outside the 3 by 3 block around the first click. With enough draws there are exactly `totalMines` of them; with fewer, every draw outside the block was used |
| MinesweeperBoard.LayMines | games/minesweeper/js/board.js:100-112 | exactly the chosen cells become mines, and no cell's state changes |
| MinesweeperBoard.CalculateAdjacentMines | games/minesweeper/js/board.js:121-145 | every non-mine cell's count is the number of mines among its in-bounds neighbours |
| MinesweeperBoard.CountAroundIsNeighbours | games/minesweeper/js/board.js:121-145 | the count over the eight direction offsets equals the size of the set of neighbouring mine cells |
| MinesweeperBoard.WinIffAllSafeRevealed | games/minesweeper/js/board.js:255-257 | once mines are placed, `checkWin` holds iff every non-mine cell is revealed |
| MinesweeperBoard.NothingRevealedBeforeFirstClick | games/minesweeper/js/board.js:255-257 | before the first click nothing is revealed, so `checkWin` holds only on a board of all mines |
| MinesweeperBoard.RevealSafe | games/minesweeper/js/board.js:167-174 | revealing a hidden safe cell reveals exactly that cell and adds one to the revealed count |
| MinesweeperBoard.Flood | games/minesweeper/js/board.js:174-212 | the flood from a zero cell reveals only hidden safe cells, never flags or mines, and the revealed count still equals the number of revealed safe cells. It ends because the number of hidden cells falls |
| MinesweeperBoard.FloodFrom | games/minesweeper/js/board.js:189-212 | the same for the loop over the remaining directions |
| MinesweeperBoard.RevealAllMines | games/minesweeper/js/board.js:240-249 | every unflagged mine becomes revealed and every other cell is unchanged |
| MinesweeperBoard.RevealMinesKeeps | games/minesweeper/js/board.js:240-249 | revealing mines changes neither the neighbour counts nor the revealed-safe, flagged or mine cells |
| MinesweeperBoard.Arm | games/minesweeper/js/board.js:153-165 | the first effective click lays the mines, computes the counts and clears `firstClick` |
| MinesweeperBoard.HandleCellClick | games/minesweeper/js/board.js:153-182 | a click on a non-hidden cell changes nothing and reports no mine. A click on a hidden cell leaves `firstClick` false. A mine is reported only from a hidden cell |
| MinesweeperBoard.HandleCellClickKeepsInv | games/minesweeper/js/board.js:153-249 | clicks keep the counters equal to the revealed-safe and flagged cells and the neighbour counts correct. The first click never hits a mine. A hit leaves the revealed count unchanged and reveals every unflagged mine |
| MinesweeperBoard.ToggleFlagAt | games/minesweeper/js/board.js:220-235 | a revealed cell leaves the board and count unchanged; otherwise the cell's flag toggles and the flag count moves by one toward its new state |
| MinesweeperBoard.ToggleFlagKeepsInv | games/minesweeper/js/board.js:220-235 | the flag count stays equal to the number of flagged cells |
| MinesweeperBoard.Reset | games/minesweeper/js/board.js:262-272 | reset returns every cell to a new cell, zeroes both counters, sets `firstClick` and keeps the size and mine count |
| MinesweeperBoard.NewBoard | games/minesweeper/js/board.js:12-71 | a new board has the requested size and mine count, is fresh and meets the invariant |
| MinesweeperGame.NewGame | games/minesweeper/js/game.js:10-37 | the game starts not started on a beginner board (9 by 9, 10 mines) |
| MinesweeperGame.LeftClick | games/minesweeper/js/game.js:66-90 | won and lost ignore clicks. Any other click leaves the not-started state and runs the board click. A hit gives lost; otherwise the game is won iff the board's win test holds |
| MinesweeperGame.LeftClickKeepsInv | games/minesweeper/js/game.js:66-90 | left clicks keep the invariant, the first click is never lost, and once mines are placed the game is won iff every safe cell is revealed |
| MinesweeperGame.RightClick | games/minesweeper/js/game.js:97-113 | won and lost ignore right clicks. Otherwise the state becomes playing, the flag toggles, and the mines-left figure is `totalMines` minus the flag count, which may be negative |
| MinesweeperGame.RightClickKeepsInv | games/minesweeper/js/game.js:97-113 | right clicks keep the invariant, and mines-left is the mine count minus the flagged cells |
| MinesweeperGame.StartNewGame | games/minesweeper/js/game.js:42-59 | a new game on a preset ends not started, with a fresh board of the preset's size and mine count |
| MinesweeperGame.StartNewGameIsFresh | games/minesweeper/js/game.js:42-59 | resetting the board and rebuilding it for the difficulty give the same fresh board |
| Tetris.Collide | games/tetris/tetris.js:241-254 | `collide` holds iff some block of the piece falls outside the 10 by 20 board or on a filled board cell |
| Tetris.AboveFloor | games/tetris/tetris.js:241-254 | a piece that does not collide has its top row above the floor |
| Tetris.Merge | games/tetris/tetris.js:256-265 | merging writes exactly the piece's blocks that fall inside the well, at its offset, and leaves every other cell unchanged. A block above the well is `MergeThrows`, which the drops handle before merging |
| Tetris.MergeKeepsBlocks | games/tetris/tetris.js:241-265 | merging a non-colliding piece keeps every filled cell, and the merged piece then collides with the board |
| Tetris.Rotate | games/tetris/tetris.js:293-311 | a rotation moves each cell to its quarter-turned place, clockwise or anticlockwise, keeping values |
| Tetris.RotateBack | games/tetris/tetris.js:293-311 | rotating one way and then the other is the identity on square matrices |
| Tetris.FourTurns | games/tetris/tetris.js:293-311 | four turns the same way are the identity |
| Tetris.RotateKeepsShape | games/tetris/tetris.js:293-311 | a rotated piece is still a square piece with a block |
| Tetris.PieceIsShape | games/tetris/tetris.js:80-116 | all seven pieces are square matrices of at most 4 with a block |
| Tetris.PlayerMove | games/tetris/tetris.js:267-273 | the piece ends either shifted, when that does not collide, or where it was, so a non-colliding piece stays non-colliding |
| Tetris.Kick | games/tetris/tetris.js:281-289 | the kick loop ends collision-free with the rotated matrix, or rotated back at the original column |
| Tetris.PlayerRotate | games/tetris/tetris.js:275-290 | a rotation ends collision-free, or with matrix and column restored |
| Tetris.Fall | games/tetris/tetris.js:327-331 | for a piece that fits, the hard drop's fall stops at the lowest row where the piece does not collide but one lower would, passing only free rows. A piece that already collides goes one row up |
| Tetris.FullRows | games/tetris/tetris.js:340-374 | the full rows and the kept rows together are all the rows |
| Tetris.Kept | games/tetris/tetris.js:340-374 | the kept rows are rows of the board, none of them full |
| Tetris.SweepShape | games/tetris/tetris.js:340-374 | the swept board is still 20 by 10 and has no full row |
| Tetris.SweepLines | games/tetris/tetris.js:340-374 | the source's bottom-up loop computes the reference sweep: as many empty rows as full rows were removed, on top of the other rows in their order, and counts the removed rows |
| Tetris.ClearLines | games/tetris/tetris.js:340-374 | a sweep adds the removed count to the player's lines and copies it to `lines` when rows were removed. The level only rises, and then to lines / 10 + 1 |
| Tetris.Spawn | games/tetris/tetris.js:169-187 | the next piece (or a drawn one) spawns at row 0 near the middle, a new next piece is drawn, and the game ends iff the spawned piece collides |
| Tetris.SpawnFitsEmpty | games/tetris/tetris.js:169-187 | every piece fits on an empty board at its spawn place |
| Tetris.UpdateScore | games/tetris/tetris.js:376-385 | `updateScore` as written: with the two line counters already equal it adds nothing |
| Tetris.LockAsWritten | games/tetris/tetris.js:314-338 | the lock as written: the well becomes the merge swept, the waiting piece spawns at row 0, the game ends iff it collides with the unswept merge, and the score stays as it was |
| Tetris.SpawnBeforeSweepOverlaps | games/tetris/tetris.js:314-325 | as written, a new piece can overlap the swept board without ending the game |
| Tetris.ScoreNeverChanges | games/tetris/tetris.js:376-384 | as written, a lock never changes the score |
| Tetris.ClearedRowScoresNothing | games/tetris/tetris.js:340-385 | on a concrete board a lock clears one row; as written it scores 0, while the corrected lock scores 100 |
| Tetris.ScoreRows | games/tetris/tetris.js:376-385 | the intended scoring: the score grows iff rows were cleared, by at least 100 times the level, and by 800 times the level for four or more |
| Tetris.Lock | games/tetris/tetris.js:314-385 | the corrected lock: the board becomes the swept merge, the game ends iff the new piece collides with that swept board, and the rows cleared are scored |
| Tetris.SweepFirstEnds | games/tetris/tetris.js:169-187 | on the same example the corrected lock ends the game |
| Tetris.LockScores | games/tetris/tetris.js:340-385 | the corrected lock adds the line points of the cleared rows times the new level, which is positive iff rows were cleared |
| Tetris.LockKeepsInv | games/tetris/tetris.js:314-385 | the corrected lock keeps the invariant (board shape, piece shapes, equal line counters, level at least 1, no collision while playing) and never lowers the score |
| Tetris.LockOrdersAgree | games/tetris/tetris.js:314-338 | the as-written and the corrected lock leave the same well, piece, next piece, line counters and level. They differ only in the game-over test and the score, which the as-written lock leaves unchanged |
| Tetris.LockAsWrittenKeepsShaped | games/tetris/tetris.js:314-338 | the as-written lock keeps the well's shape, the piece shapes, equal line counters and a level of at least 1, and leaves the score unchanged |
| Tetris.Drop | games/tetris/tetris.js:314-325 | a soft drop moves the piece down one row. When the row below collides it locks the piece in the source's order (merge, spawn, sweep, score), unless `merge` throws on a block above the well; then nothing changes |
| Tetris.HardDrop | games/tetris/tetris.js:327-338 | for a piece that fits, the new piece spawns at row 0 and the score is unchanged. A piece that already collides goes one row up; if that puts a block above the well, `merge` throws and the game stops there, otherwise it locks |
| Tetris.FitsNoThrow | games/tetris/tetris.js:256-265 | a piece that fits has no block above the well, so `merge` does not throw on it |
| Tetris.LandingUnique | games/tetris/tetris.js:327-331 | a piece has at most one landing row: the first row below which it would collide |
| Tetris.FallLands | games/tetris/tetris.js:327-331 | a piece that fits falls in its own column to its landing row, where merging it does not throw |
| Tetris.HardDropLands | games/tetris/tetris.js:327-338 | a hard drop of a piece that fits locks it on its landing row: the well becomes that merge swept, and the game ends iff the new piece collides with the unswept merge |
| Tetris.HardDropThrowsAtTop | games/tetris/tetris.js:327-338 | a hard drop of a running piece that collides on row 0 with a block in its top row throws: the piece is left on row -1 and nothing else changes |
| Tetris.DownLeavesJOnTop | games/tetris/tetris.js:422-439 | on `OverlapExample` the down key leaves a running game with the J piece overlapping on row 0, a state where a hard drop throws |
| Tetris.HardDropFixedLands | games/tetris/tetris.js:327-338 | the corrected hard drop of a piece that fits locks it on its landing row, sweeps that merge, and scores the rows it cleared at the new level |
| Tetris.HandleKey | games/tetris/tetris.js:422-439 | keys do nothing once the game is over, the pause key toggles the pause, and moves and rotations change neither board nor score; the drop keys use the as-written lock |
| Tetris.HandleKeyKeepsShaped | games/tetris/tetris.js:422-439 | as written, every key keeps the well's shape, the piece shapes, equal line counters and a level of at least 1, and no key changes the score |
| Tetris.HandleKeyBreaksFit | games/tetris/tetris.js:422-439 | as written, the down key on `OverlapExample` locks the I piece and leaves a running game whose new piece overlaps the well |
| Tetris.DropFixed | games/tetris/tetris.js:314-325 | the corrected soft drop: one row down, or the corrected lock, with the same throw as the source when a block is above the well |
| Tetris.HardDropFixed | games/tetris/tetris.js:327-338 | the corrected hard drop: for a piece that fits, the new piece spawns at row 0 and the game ends iff it collides with the swept well. A piece that already collides goes one row up and throws or locks as in the source |
| Tetris.HandleKeyFixed | games/tetris/tetris.js:422-439 | the corrected handler: identical to `HandleKey` except that both drop keys use the corrected lock |
| Tetris.ShiftKeepsInv | games/tetris/tetris.js:422-439 | the move and rotate keys keep the full invariant and the score |
| Tetris.DropFixedKeepsInv | games/tetris/tetris.js:314-325 | the corrected soft drop keeps the full invariant and never lowers the score |
| Tetris.HardDropFixedKeepsInv | games/tetris/tetris.js:327-338 | the corrected hard drop keeps the full invariant and never lowers the score |
| Tetris.HandleKeyFixedKeepsInv | games/tetris/tetris.js:422-439 | with the corrected lock every key keeps the full invariant, including that a running game's piece fits, and never lowers the score |
| Tetris.Init | games/tetris/tetris.js:129-151 | a new game has an empty board, score 0, level 1, no lines, is not over, and meets the invariant |
| Snake.Step | games/snake/snake.js:228-241 | the new head is one cell from the old one |
| Snake.StepBack | games/snake/snake.js:228-241 | a step and a step in the opposite direction cancel, and the two never reach the same cell |
| Snake.CreateFood | games/snake/snake.js:106-118 | the food is the first draw not on the snake, every earlier draw being on it; there is none iff every draw is on the snake |
| Snake.FoodIsFirstOff | games/snake/snake.js:106-118 | whenever some draw is off the snake, the food is the first such draw |
| Snake.Init | games/snake/snake.js:77-103 | the snake starts as (10,10), (9,10), (8,10) heading right, with score 0 and food off the snake |
| Snake.MoveSnake | games/snake/snake.js:221-281 | the direction becomes the asked one. An off-grid head, or a head on any segment including the tail, ends the game with the snake unchanged. Food grows the snake by one and adds 10; otherwise the tail is dropped and the length kept |
| Snake.Update | games/snake/snake.js:284-290 | nothing happens while the game is over or paused |
| Snake.HandleKey | games/snake/snake.js:339-362 | the key handler never asks for the reverse of the current direction, changes only the asked direction and the pause, and ignores keys after game over |
| Snake.ArrowTurns | games/snake/snake.js:343-358 | an arrow sets its direction iff the game runs and it is not the reverse of the current direction |
| Snake.NeverIntoNeck | games/snake/snake.js:343-358 | the head never turns back into the second segment |
| Snake.InitKeepsInv | games/snake/snake.js:77-103 | a new game on a large enough grid meets the invariant: distinct in-grid segments one step apart, no reverse asked, food off the snake, and 10 points per grown segment |
| Snake.HandleKeyKeepsInv | games/snake/snake.js:339-362 | the keys keep the invariant |
| Snake.UpdateKeepsInv | games/snake/snake.js:221-290 | a step that does not end the game keeps the segments distinct and in the grid, moves the head one cell, and grows the length by at most one |
| PacmanGrid.Round | games/pacman/modules/pacmanController.js:67-77 | `Math.round(v / 16)` finds the cell whose half-open span holds v, halves rounding up |
| PacmanGrid.RoundUnique | games/pacman/modules/pacmanController.js:67-77 | that cell is the only one whose span holds v |
| PacmanGrid.PassableIffOpenNeighbour | games/pacman/modules/pacmanController.js:75-91 | on a rectangular maze, the movement test passes iff the neighbouring cell is inside the maze and not a wall |
| PacmanController.CanMove | games/pacman/modules/pacmanController.js:75-91 | `canMove` fails for an unknown direction and at the border, and otherwise holds iff the neighbouring cell is not a wall |
| PacmanController.Align | games/pacman/modules/pacmanController.js:67-72 | alignment snaps each coordinate to the nearest multiple of 16, halves going up, and keeps the cell |
| PacmanController.AlignIdempotent | games/pacman/modules/pacmanController.js:67-72 | aligning twice is aligning once |
| PacmanController.Turn | games/pacman/modules/pacmanController.js:32-37 | the direction becomes the asked one only when it differs and `canMove` allows it, and the position is then aligned |
| PacmanController.UpdatePosition | games/pacman/modules/pacmanController.js:30-64 | after the turn test, the position moves exactly 2 pixels along the direction iff `canMove` allows it, and is unchanged otherwise |
| PacmanController.TunnelWrapUnreachable | games/pacman/modules/pacmanController.js:50-91 | as written, whenever `canMove` allows a step the wrap conditions are false, so the wrap never fires |
| PacmanController.StuckAtTunnelMouth | games/pacman/modules/pacmanController.js:50-91 | as written, Pac-Man heading left into a tunnel stops in column 0 for good |
| PacmanController.CanMoveWrapping | games/pacman/modules/pacmanController.js:50-91 | the corrected test: at the left or right border the far column of the same row is tested instead |
| PacmanController.UpdateWrapping | games/pacman/modules/pacmanController.js:30-64 | the update with the corrected test takes the wrapping step iff that test passes |
| PacmanController.WrapsThroughTunnel | games/pacman/modules/pacmanController.js:50-61 | with the corrected test, a left step from x = 0 in a tunnel row comes out in the last column |
| PacmanGhosts.Keep | games/pacman/modules/ghosts.js:12-29 | the filter keeps exactly the passable directions, in their order |
| PacmanGhosts.PossibleDirections | games/pacman/modules/ghosts.js:12-29 | the candidates are exactly the passable directions, in the order up, down, left, right |
| PacmanGhosts.FirstNearest | games/pacman/modules/ghosts.js:92-117 | the search loop returns the first candidate at the smallest distance |
| PacmanGhosts.DirectionToTarget | games/pacman/modules/ghosts.js:92-117 | there is no direction iff there are no candidates. Otherwise the answer is a candidate whose one-cell step is nearest to the target, with ties going to the earliest |
| PacmanGhosts.NearestIsFirstMinimum | games/pacman/modules/ghosts.js:92-117 | any first nearest candidate is the one returned |
| PacmanGhosts.PinkyTarget | games/pacman/modules/ghosts.js:48-69 | Pinky aims 4 cells ahead of Pac-Man in its direction: on Pac-Man's column above it for up, below it for down, on its row to the left for left and to the right for right, 64 pixels away; at Pac-Man itself for any other direction |
| PacmanGhosts.ChooseDirection | games/pacman/modules/ghosts.js:32-89 | Blinky chases Pac-Man and Pinky the point ahead. Inky keeps its direction unless the random draw says otherwise. Clyde chases when within 8 cells. Apart from Inky keeping its direction, the choice is always a candidate, and there is none only when there are no candidates |
| PacmanGhosts.TickGhost | games/pacman/modules/ghosts.js:120-130 | a ghost in the house loses 30 from its timer and leaves at y = 11 times 16 once the timer reaches 0; other ghosts are untouched |
| PacmanGhosts.UpdateGhostHouse | games/pacman/modules/ghosts.js:120-130 | every ghost takes that step |
| PacmanGhosts.ReleaseAfter | games/pacman/modules/ghosts.js:120-130 | a ghost stays in the house exactly while 30 times the ticks is below its timer |
| PacmanGhosts.InitialReleaseTicks | games/pacman/modules/ghosts.js:4-9 | Pinky, Inky and Clyde leave the house after 67, 134 and 200 ticks |
| PacmanGhosts.Reverse | games/pacman/modules/ghosts.js:133-144 | reversal changes every known direction |
| PacmanGhosts.ReverseTwice | games/pacman/modules/ghosts.js:133-144 | reversing twice restores the direction |
| PacmanGhosts.FrightenGhosts | games/pacman/modules/ghosts.js:133-144 | every ghost becomes frightened with its direction reversed, and nothing else changes |
| PacmanGhosts.FrightenTwice | games/pacman/modules/ghosts.js:133-144 | frightening twice restores every direction |
| SpaceInvadersPhysics.CollideSymmetric | games/spaceinvaders/physics.js:128-133 | box overlap is symmetric |
| SpaceInvadersPhysics.TouchingDoNotCollide | games/spaceinvaders/physics.js:128-133 | boxes that only touch along an edge do not collide |
| SpaceInvadersPhysics.CollideIffCommonPoint | games/spaceinvaders/physics.js:128-133 | boxes collide iff some point lies strictly inside both |
| SpaceInvadersPhysics.CreatePlayer | games/spaceinvaders/physics.js:11-22 | the player is centred 20 pixels above the bottom, with the constant size, not hit |
| SpaceInvadersPhysics.CreatePlayerBullet | games/spaceinvaders/physics.js:90-102 | there is a bullet iff the fire rate has passed since the last shot, centred on the player and just above it |
| SpaceInvadersPhysics.BulletClearOfPlayer | games/spaceinvaders/physics.js:90-102 | a new bullet does not collide with the player that fired it |
| SpaceInvadersPhysics.CreateAlienBullet | games/spaceinvaders/physics.js:105-114 | an alien's bullet starts centred just below it, with the alien bullet speed |
| SpaceInvadersPhysics.CreateExplosion | games/spaceinvaders/physics.js:117-125 | an explosion starts at the point, fully opaque, at frame 0, with size 30 unless one is given |
| SpaceInvadersPhysics.CreateAliens | games/spaceinvaders/physics.js:25-47 | the formation is 55 live aliens in row order, whose type is the row and whose points are the row's points |
| SpaceInvadersPhysics.FormationApart | games/spaceinvaders/physics.js:25-47 | no two aliens of the formation collide |
| SpaceInvadersPhysics.IsBottomAlien | games/spaceinvaders/physics.js:136-143 | an alien is at the bottom iff no live alien has the same x and a greater y |
| SpaceInvadersPhysics.BottomOfFormation | games/spaceinvaders/physics.js:136-143 | in the new formation exactly the last row is at the bottom |
| SpaceInvadersPhysics.CreateShields | games/spaceinvaders/physics.js:50-87 | there are 4 shields of 48 parts less the 8 in the notch, 160 in all, each at its place and with health 3 |
| SpaceInvadersPhysics.ShieldLayout | games/spaceinvaders/physics.js:50-87 | the part numbering covers exactly the grid cells outside the notch (rows 4 and 5, columns 2 to 5), one number per cell |

## Left out

- Rendering, the DOM, canvases, modals, sounds, event wiring and key-binding loading are left out. Keys are a small datatype per game.
- `localStorage` is left out. The 2048 best score is a parameter, and the Snake high score is not modelled.
- Timers and animation loops are left out:
  - the Snake interval and speed buttons;
  - the Tetris `dropInterval` and its `requestAnimationFrame` loop;
  - the 2048 `setTimeout` before the new tile, whose effect is folded into `HandleInput`;
  - the `setTimeout` that ends the ghosts' fright;
  - Pac-Man's mouth animation.
- Space Invaders' frame loop, float health and the other games (Pong, Breakout, Flappy Bird) are left out. They are float physics driven by clocks.
- `games/pacman/modules/maze.js` is not part of this model. The maze is a parameter.
- Castling, en passant, repetition and the fifty-move rule are absent from the chess source and are not added. `hasMoved` only feeds the history entry.
- Random choices are parameters. The pseudo-random generator itself is not modelled.
- The sharing of the `PIECES` matrices between Tetris pieces, and their rotation in place, is not modelled. Matrices are values.
- ChessGame.Promote: the model does not prove that a promotion keeps the game playable. Only its effect and its undo are proved.
- MinesweeperBoard.Flood: the contract states soundness (only hidden safe cells are revealed, and the counters stay right). It does not state that every cell the flood should reach is revealed.
- MinesweeperBoard.FloodFrom: states the same soundness only, for the loop over the remaining directions. It does not state that every cell reachable through them is revealed.
- MinesweeperGame.StartNewGame: requires one of the three presets, because the source's "no board yet" case is a null board that is not modelled.
- Snake.CreateFood: the draws are a finite parameter, and when every draw is on the snake the model returns no food. The source never gives up: it draws again until a cell is off the snake, so on a full grid it recurses until the stack overflows. That overflow is not modelled.
- Snake.InitKeepsInv: requires a grid larger than 10 by 10, because the start cells must be on the grid. The source takes the grid from the canvas.
- Tetris.UpdateScore: requires `lines <= player.lines`, which always holds where the source calls it.
- Tetris.PlayerRotate: requires a non-zero direction, as every caller passes 1 or -1.
- Tetris.HandleKey: does not block keys while paused, like the source. The pause only stops the automatic drop, which is not modelled.
- Tetris.Merge: a block outside the well's columns or below its floor is dropped. In the source the first adds an element to the row array, and the second throws after the rows above it are written. Neither happens in play: pieces spawn inside the columns and only move to places that fit.
- Tetris.Kick: follows the source's loop, which gives up before testing its last offset.
- PacmanGhosts.ChooseDirection: compares squared distances instead of `Math.sqrt`, which picks the same direction on exact arithmetic.
- PacmanGhosts.ReleaseAfter: requires a positive timer, which every ghost in the house has.
- PacmanGhosts.PossibleDirections: requires every neighbour it reads to exist, as does `Keep`. Reading a missing row is a `TypeError` in the source, which is not modelled.
- PacmanController.CanMove: requires the rows it reads to exist. Reading a missing row is a `TypeError` in the source, which is not modelled.
- SpaceInvadersPhysics.CollideIffCommonPoint: requires positive sizes, as every box in the game has.

## Findings

| source | as written | input that shows it | evidently intended | confidence | as-written member | corrected member |
|---|---|---|---|---|---|---|
| games/chess/chess.js:725-769 | `undoMove` keeps the selection and its target list | select a piece with a legal target, have the last ply on the board, and undo: the side to move flips, but the kept piece, now of the wrong colour, still moves on a click on its target | undo also clears the selection, as `clearSelection` does | medium, not executed | ChessUi.StaleSelectionAfterUndo | ChessUi.UndoClearingKeepsSound |
| games/tetris/tetris.js:314-338 | `playerReset` runs its collision test before `sweepLines` shifts rows down | the board of `OverlapExample`: the I piece completes the bottom row, the J piece fits the unswept board, but the sweep moves a block into its cells | the collision test sees the swept board | high, not executed | Tetris.SpawnBeforeSweepOverlaps | Tetris.SweepFirstEnds |
| games/pacman/modules/pacmanController.js:50-91 | the tunnel wrap follows a `canMove` test that refuses every step past the border | a tunnel row; Pac-Man at x = 6 heading left stops in column 0 for good | through the border the far column of the same row is tested | medium, not executed | PacmanController.StuckAtTunnelMouth | PacmanController.WrapsThroughTunnel |
| games/tetris/tetris.js:376-384 | `updateScore` counts `player.lines - lines` after `sweepLines` has made the two equal | `OverlapExample` clears one row and scores 0 | the rows cleared by this sweep are scored | high, not executed | Tetris.ScoreNeverChanges | Tetris.LockScores |

The as-written versions stay in the model: `UpdateScore`, `LockAsWritten`,
`UndoKeepingSelection` and `UpdatePosition`. `Drop`, `HardDrop` and
`HandleKey` lock as the source does (`LockAsWritten`), so they never
change the score, and a running game's piece can overlap the well
(`HandleKeyBreaksFit`). The corrected `Lock`, which sweeps before it
spawns and scores the cleared rows, is used by `DropFixed`,
`HardDropFixed` and `HandleKeyFixed`, which keep the full invariant
(`HandleKeyFixedKeepsInv`). The Pac-Man movement is modelled as written
(`UpdatePosition`), with the wrapping version beside it.
