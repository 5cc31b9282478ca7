# TicTacToe game core in Dafny

A model of the game state and rules of a two-player networked Tic-Tac-Toe
(C++, SFML), with proofs about it. The model covers:

- the `Game` object: a 3x3 grid of ints (0 empty, 1 X, 2 O), the player to
  move, the game status, the mode and the difficulty;
- move application, status evaluation, reset and free-cell enumeration;
- terminal scoring and the computer's exhaustive minimax search;
- the 13-integer text snapshot the two peers exchange.

Modules:

- `Globals` (Globals.dfy): the four enumerations with the ordinals the
  compiler gives them. The ordinals are part of the wire format.
- `Rules` (Rules.dfy): the state as a value (`State`, the grid flattened
  row-major), with the rules as functions over it: `StatusOf`, `ApplyMove`,
  `EmptyCells`, `Score`, and `Play` for a sequence of moves.
- `Search` (Search.dfy): minimax as a pure recursive function returning the
  chosen move and its score. Termination is measured by the number of empty
  cells.
- `Codec` (Codec.dfy): writing and reading decimal integers, splitting text
  into whitespace-separated tokens, `Encode` and `Decode`.
- `GameObject` (GameObject.dfy): the `Game` class. Its grid is an
  `array2<int>` updated in place. A ghost field `board` holds the same cells
  row-major, and `Valid()` ties the two together. Each method is proved to do
  to the object's fields (`Value()`) what the functions of `Rules`, `Search`
  and `Codec` say. The free function `minimax` is a recursive method that
  builds a fresh successor object per free cell, as the source does.

## Model

| member | source | states |
|---|---|---|
| Globals.PlayerOf | include/globals.hpp:35-39 | an int names a player exactly when it is 0, 1 or 2, and the player named has that ordinal (X = 0, O = 1, NONE = 2) |
| Globals.GameStatusOf | include/globals.hpp:41-46 | an int names a status exactly when it is 0..3, and the status named has that ordinal (X_WIN = 0 … PLAYING = 3) |
| Globals.GameModeOf | include/globals.hpp:48-52 | an int names a mode exactly when it is 0..2, and the mode named has that ordinal |
| Globals.DifficultyOf | include/globals.hpp:54-58 | an int names a difficulty exactly when it is 0..2, and the difficulty named has that ordinal |
| Globals.OrdinalsRoundTrip | include/globals.hpp:35-58 | reading back the ordinal written for any enum value gives that value |
| Rules.StatusOf | src/game.cpp:93-149 | the status the grid implies, a function of the grid alone: rows and columns interleaved by index, then the two diagonals, then the draw scan; its meaning is stated by Rules.StatusByLines and Rules.StatusDecided |
| Rules.FirstCompleteLine | src/game.cpp:96-122 | the first line, in the order row 0, column 0, row 1, column 1, row 2, column 2, main diagonal, anti-diagonal, that holds three equal non-zero marks; every earlier line is incomplete |
| Rules.StatusByLines | src/game.cpp:93-149 | the status is decided by the mark of the first complete line in that order (1 gives X_WIN, any other mark O_WIN); with no complete line it is DRAW when no cell is 0 and PLAYING otherwise |
| Rules.StatusDecided | src/game.cpp:93-149 | both directions: a win exactly when some line is complete, a draw exactly when no line is complete and no cell is empty, PLAYING exactly when no line is complete and a cell is empty |
| Rules.ApplyMove | src/game.cpp:160-168 | an accepted move leaves one fewer empty cell, a rejected one the same number; a state still in play afterwards has an empty cell |
| Rules.MoveEffect | src/game.cpp:160-168 | only the target cell can change; an empty target gets the mover's mark (1 for X, 2 otherwise) and the turn passes to the other of X and O; an occupied target leaves grid and turn alone; the status agrees with the new grid; mode and difficulty are unchanged |
| Rules.RejectedMoveIsNoOp | src/game.cpp:162-167 | a move onto an occupied cell of a state whose status agrees with its grid changes nothing |
| Rules.PlayAlternatesTurn | src/game.cpp:160-168 | over any sequence of moves the turn stays X or O, and it is back to the starting player exactly when an even number of the moves were accepted |
| Rules.PlayFillsOneCellPerAcceptedMove | src/game.cpp:162-165 | over any sequence of moves, each accepted move fills exactly one empty cell and mode and difficulty never change |
| Rules.TurnAlternates | src/game.cpp:160-168 | from a new game, X is to move exactly when an even number of moves were accepted, and at most nine are ever accepted |
| Rules.Initial | include/game.hpp:22-39 | the state a new game holds: all cells 0, X to move, PLAYING, the given mode and difficulty; Rules.InitialIsConsistent and Rules.TurnAlternates state what follows from it |
| Rules.InitialIsConsistent | include/game.hpp:22-39 | a new game's status PLAYING agrees with its grid and all nine cells are empty |
| Rules.EmptyCellsBefore | src/game.cpp:313-325 | the empty cells among the first n in row-major order: each one on the board and empty, strictly increasing in position, and none missing |
| Rules.EmptyCellsBeforeCount | src/game.cpp:313-325 | one position per empty cell among the first n |
| Rules.EmptyCells | src/game.cpp:313-325 | a position is listed exactly when it is on the board and its cell is 0; the list is in strictly increasing row-major order, so each cell once; its length is the number of empty cells |
| Rules.Score | src/game.cpp:195-208 | the score is one of -10, 0, 10; it is 10 exactly when the player has won, and -10 exactly when X or O has won and the player is the other of the two |
| Search.FirstMax | src/game.cpp:237-241 | the index max_element finds: an element no smaller than any other, with every earlier element strictly smaller |
| Search.FirstMin | src/game.cpp:242-246 | the index min_element finds: an element no larger than any other, with every earlier element strictly larger |
| Search.Minimax | src/game.cpp:221-249 | the score is always -10, 0 or 10; a finished game gives score(computer) and assigns no move |
| Search.ChildScores | src/game.cpp:226-235 | one score per move, each -10, 0 or 10 |
| Search.ChildScoresAt | src/game.cpp:230-235 | the i-th score is the minimax score of the game the i-th move leads to |
| Search.MinimaxChoice | src/game.cpp:226-247 | on a game in play the chosen move is an empty cell, and it is the first child of highest score when the computer is to move and the first child of lowest score otherwise, with that child's score |
| Search.ImmediateWin | src/game.cpp:226-241 | when the computer is to move and some empty cell wins at once, the search scores 10 |
| Search.ImmediateLoss | src/game.cpp:226-247 | when the opponent is to move and some empty cell wins at once for the opponent, the search scores -10 |
| Search.FirstFreeCellWins | src/game.cpp:226-241 | when the computer is to move and the first empty cell in row-major order wins at once, the search picks that cell with score 10 |
| Search.CompletesTopRow | src/game.cpp:221-249 | with X X and an empty cell on the top row, X to move and the computer playing X, the search plays (0, 2) and scores 10, whatever the rest of the board holds |
| Codec.IntText | src/game.cpp:273 | one int as `<<` writes it: a non-empty run of non-space characters, so each written value is one token; Codec.IntTextRoundTrip states that Codec.ParseInt reads it back |
| Codec.ParseInt | src/game.cpp:295 | one whitespace-delimited token that is wholly an int (an optional sign and at least one digit), as `>>` reads it; any other token is a failure; Codec.IntTextRoundTrip states it inverts Codec.IntText |
| Codec.IntTextRoundTrip | src/game.cpp:267-306 | reading back an int written in decimal gives the int, for every int including negatives |
| Codec.Encode | src/game.cpp:267-281 | the snapshot of a state: each cell followed by a space, then the four ordinals separated by single spaces; its layout is stated by Codec.EncodeLayout and its inverse by Codec.DecodeEncode |
| Codec.EncodeLayout | src/game.cpp:267-281 | the snapshot is exactly 13 tokens: the nine cells row-major, then turn, status, mode and difficulty as ordinals; it does not end with a space |
| Codec.Decode | src/game.cpp:289-306 | reading a snapshot: a result only when there are at least 13 tokens, the first 13 parse as ints and the last four of those are ordinals of their enums; Codec.DecodedTokens states which token gives which field and Codec.DecodeEncode that it inverts Codec.Encode |
| Codec.DecodedTokens | src/game.cpp:289-306 | a snapshot that decodes takes its nine cells from the first nine tokens in row-major order and the four enum fields from the next four, read as ordinals |
| Codec.DecodeEncode | src/game.cpp:267-306 | decoding the snapshot of any state gives back every field of that state |
| GameObject.Game.constructor | include/game.hpp:22-39 | a fresh 3x3 grid of zeros, X to move, status PLAYING, the given mode and difficulty (NO_MODE and DEFAULT when omitted) |
| GameObject.Game.FromMove | include/game.hpp:46-55 | the new game has its own fresh grid and is the old game's state with the move applied; the old game is unchanged |
| GameObject.Game.CheckEmptyCell | src/game.cpp:82-84 | true exactly when playerMove would accept a move at that cell |
| GameObject.Game.UpdateGameStatus | src/game.cpp:93-149 | the status becomes the one the grid implies (Rules.StatusOf) and nothing else changes |
| GameObject.Game.PlayerMove | src/game.cpp:160-168 | the object's new state is Rules.ApplyMove of its old state, in the same grid array |
| GameObject.Game.ResetGame | src/game.cpp:176-187 | every cell becomes 0 and the status PLAYING; turn, mode and difficulty are kept; the status agrees with the grid |
| GameObject.Game.AvailablePositions | src/game.cpp:313-325 | the positions returned are Rules.EmptyCells of the grid: all empty cells, each once, row-major |
| GameObject.Game.GetNewState | src/game.cpp:257-259 | a fresh game, with a fresh grid, whose state is this game's with the move applied |
| GameObject.Game.Serialize | src/game.cpp:267-281 | the text is Codec.Encode of the game's state |
| GameObject.Game.Deserialize | src/game.cpp:289-306 | on well-formed text every field is replaced by the one the text holds, in the same grid array |
| GameObject.Game.ReadCells | src/game.cpp:293-297 | the nine cells of the grid are the first nine ints of the text, row-major |
| GameObject.Minimax | src/game.cpp:221-249 | the move and score found are those of Search.Minimax on the game's state |
| GameObject.ScoreMoves | src/game.cpp:226-235 | the scores collected are Search.ChildScores: the minimax score of each move's successor, in the order of the moves |

## Left out

- Game::drawBoard and everything in src/graphics.cpp: SFML drawing with floating-point geometry.
- The `window.clear` call at the start of resetGame: presentation only.
- src/main.cpp: the event loop, input polling, sleeps, and the `rand()`-based easy-mode move picker (randomness and UI glue).
- src/network.cpp: socket setup, the handshake and the retry loops for sending and receiving snapshots (I/O).
- Window and port constants of include/globals.hpp: presentation and network configuration.
- Cells are unbounded integers. A C++ `int` cell is 32 bits, but moves only ever write 0, 1 and 2. Codec.Decode accepts a token outside the 32-bit range, where the source's `>>` would fail; such text is outside what a peer sends.
- Codec.ParseInt: reads a whole whitespace-delimited token. The source's `>>` reads the longest numeric prefix and leaves the rest for the next read, so "12abc" gives 12 there and a failure here. The two agree on every token that is wholly an int, which is every token serialize writes.
- GameObject.Game.Deserialize: requires text that Codec.Decode accepts. The source reads any text: a cell whose token is not a number becomes 0, and one whose number is out of int range becomes INT_MAX or INT_MIN. After the first failure, or at the end of the text, no read stores anything: later cells keep their old values and the four enum locals stay uninitialised. Ordinal 3 for the player, mode or difficulty is a defined value that is no enumerator, which the Dafny datatypes cannot hold, and larger ordinals are undefined. Codec.Decode rejects all of these, the value 3 included.
- GameObject.Game.PlayerMove: requires the row and column to be 0..2; the source indexes the grid without a check, so other values are undefined behaviour.
- GameObject.Game.CheckEmptyCell: requires the row and column to be 0..2, for the same reason.
- Search.Minimax: requires that a game still in play has an empty cell. Otherwise the source takes max_element of an empty vector and indexes past its end. This only happens for a status that disagrees with the grid, as in a snapshot read off the wire.
- GameObject.Minimax: the same requirement as Search.Minimax. The `Game` that the source passes by value is passed by reference here; the method modifies no existing object and builds one fresh successor per free cell, which is what the copy guarantees.
- Search.Minimax: the `move` reference parameter is modelled as the move returned with the score. Recursive calls overwrite it, but the caller's own assignment comes after all of them, so only that last value is modelled. None stands for "not assigned", which happens when the game is already finished.
- That minimax never loses from the empty board is not proved: the search tree is too large to unfold in the verifier.
