/** The game state as a value and the rules of the game as functions over it:
    move application, status evaluation, scoring and the enumeration of free
    cells (src/game.cpp). The mutable `Game` object in module GameObject is
    proved to follow these functions. */
module Rules {
  import opened Globals

  /** The 3x3 grid, flattened row-major: cell (row, col) is element
      3 * row + col. 0 is empty, 1 is X, 2 is O; a grid read off the wire
      may hold any integer. */
  type Grid = g: seq<int> | |g| == 9 witness [0, 0, 0, 0, 0, 0, 0, 0, 0]

  const EmptyGrid: Grid := [0, 0, 0, 0, 0, 0, 0, 0, 0]

  /** A cell index into a flattened grid. */
  type CellIndex = k: nat | k < 9

  /** A (row, col) pair, as the source's pair<int, int>. */
  datatype Pos = Pos(row: int, col: int)

  predicate OnBoard(p: Pos) {
    0 <= p.row < 3 && 0 <= p.col < 3
  }

  function Index(p: Pos): (k: CellIndex)
    requires OnBoard(p)
  {
    3 * p.row + p.col
  }

  /** The position of the k-th cell in row-major order. */
  function PosOf(k: CellIndex): (p: Pos)
    ensures OnBoard(p) && Index(p) == k
  {
    var row := if k < 3 then 0 else if k < 6 then 1 else 2;
    Pos(row, k - 3 * row)
  }

  /** The number of empty cells. */
  function ZeroCount(g: Grid): nat {
    multiset(g)[0]
  }

  /** The fields of a `Game`. */
  datatype State = State(grid: Grid, activeTurn: Player, status: GameStatus,
                         mode: GameMode, difficulty: Difficulty)

  /** What `Game(mode, difficulty)` builds. */
  function Initial(mode: GameMode, difficulty: Difficulty): State {
    State(EmptyGrid, X, Playing, mode, difficulty)
  }

  /** The status field agrees with the grid. */
  predicate Consistent(s: State) {
    s.status == StatusOf(s.grid)
  }

  // ---------------------------------------------------------------------
  // Status evaluation (Game::updateGameStatus)
  // ---------------------------------------------------------------------

  /** Mark 1 is a win for X; any other mark is a win for O. */
  function WinFor(mark: int): GameStatus {
    if mark == 1 then XWin else OWin
  }

  /** Cells a, b and c hold the same non-zero mark. */
  predicate Complete(g: Grid, a: CellIndex, b: CellIndex, c: CellIndex) {
    g[a] != 0 && g[a] == g[b] && g[b] == g[c]
  }

  /** The status the grid implies, checking row i and then column i for
      i = 0, 1, 2, then the main diagonal, then the anti-diagonal, then
      whether any cell is still empty. */
  function StatusOf(g: Grid): GameStatus {
    ScanRowsAndColumns(g, 0)
  }

  function ScanRowsAndColumns(g: Grid, i: nat): GameStatus
    requires i <= 3
    decreases 3 - i
  {
    if i == 3 then ScanDiagonals(g)
    else if Complete(g, 3 * i, 3 * i + 1, 3 * i + 2) then WinFor(g[3 * i])
    else if Complete(g, i, 3 + i, 6 + i) then WinFor(g[i])
    else ScanRowsAndColumns(g, i + 1)
  }

  function ScanDiagonals(g: Grid): GameStatus {
    if Complete(g, 0, 4, 8) then WinFor(g[0])
    else if Complete(g, 2, 4, 6) then WinFor(g[2])
    else if 0 in g then Playing
    else Draw
  }

  /** The eight lines of the board, in the order the status check visits
      them: row 0, column 0, row 1, column 1, row 2, column 2, main
      diagonal, anti-diagonal. */
  const Lines: seq<(CellIndex, CellIndex, CellIndex)> :=
    [(0, 1, 2), (0, 3, 6), (3, 4, 5), (1, 4, 7), (6, 7, 8), (2, 5, 8), (0, 4, 8), (2, 4, 6)]

  predicate LineComplete(g: Grid, k: nat)
    requires k < |Lines|
  {
    Complete(g, Lines[k].0, Lines[k].1, Lines[k].2)
  }

  predicate HasCompleteLine(g: Grid) {
    exists k :: 0 <= k < |Lines| && LineComplete(g, k)
  }

  /** The first complete line at or after k, or |Lines| if there is none. */
  function FirstCompleteLine(g: Grid, k: nat): (r: nat)
    requires k <= |Lines|
    ensures k <= r <= |Lines|
    ensures r < |Lines| ==> LineComplete(g, r)
    ensures forall j :: k <= j < r ==> !LineComplete(g, j)
    decreases |Lines| - k
  {
    if k == |Lines| then k
    else if LineComplete(g, k) then k
    else FirstCompleteLine(g, k + 1)
  }

  /** The status in terms of the line table: the mark of the first complete
      line decides the winner; with no complete line it is a draw exactly
      when no cell is empty. */
  lemma StatusByLines(g: Grid)
    ensures var k := FirstCompleteLine(g, 0);
      StatusOf(g) == if k < |Lines| then WinFor(g[Lines[k].0])
                     else if 0 in g then Playing
                     else Draw
  {
  }

  /** Both directions of each outcome: a win exactly when some line is
      complete, a draw exactly when no line is complete and no cell is
      empty, still playing exactly when no line is complete and some cell is
      empty. */
  lemma StatusDecided(g: Grid)
    ensures StatusOf(g) in {XWin, OWin} <==> HasCompleteLine(g)
    ensures StatusOf(g) == Draw <==> !HasCompleteLine(g) && 0 !in g
    ensures StatusOf(g) == Playing <==> !HasCompleteLine(g) && 0 in g
    ensures StatusOf(g) == Playing ==> ZeroCount(g) > 0
  {
    StatusByLines(g);
    var k := FirstCompleteLine(g, 0);
    if k < |Lines| {
      assert HasCompleteLine(g);
    } else {
      assert !HasCompleteLine(g);
    }
  }

  // ---------------------------------------------------------------------
  // Moves (Game::playerMove, Game(const Game&, pair<int, int>))
  // ---------------------------------------------------------------------

  /** The mark a player writes: 1 for X, 2 otherwise. */
  function MarkOf(p: Player): int {
    if p == X then 1 else 2
  }

  /** The player whose turn follows p's: O after X, X otherwise. */
  function Opponent(p: Player): Player {
    if p == X then O else X
  }

  /** A move is accepted exactly when its cell is empty. */
  predicate Accepts(s: State, p: Pos)
    requires OnBoard(p)
  {
    s.grid[Index(p)] == 0
  }

  /** playerMove: an accepted move writes the mover's mark into the one
      cell and passes the turn; a move onto an occupied cell changes neither
      grid nor turn. The status is recomputed from the grid either way.
      The contract here is what search relies on: an accepted move fills
      exactly one free cell, and a state still in play has a free cell.
      MoveEffect states the rest. */
  function ApplyMove(s: State, p: Pos): (t: State)
    requires OnBoard(p)
    ensures ZeroCount(t.grid) == if Accepts(s, p) then ZeroCount(s.grid) - 1 else ZeroCount(s.grid)
    ensures t.status == Playing ==> ZeroCount(t.grid) > 0
  {
    StatusDecided(if Accepts(s, p) then s.grid[Index(p) := MarkOf(s.activeTurn)] else s.grid);
    if Accepts(s, p) then
      var g := s.grid[Index(p) := MarkOf(s.activeTurn)];
      State(g, Opponent(s.activeTurn), StatusOf(g), s.mode, s.difficulty)
    else
      s.(status := StatusOf(s.grid))
  }

  /** What one call of playerMove does: only the target cell can change;
      when it was empty it now holds the mover's non-zero mark and the turn
      has passed to X or O, the other one of the two; when it was occupied
      grid and turn are as they were; the status agrees with the new grid;
      mode and difficulty are untouched. */
  lemma MoveEffect(s: State, p: Pos)
    requires OnBoard(p)
    ensures var t := ApplyMove(s, p);
      && (forall k :: 0 <= k < 9 && k != Index(p) ==> t.grid[k] == s.grid[k])
      && (Accepts(s, p) ==> t.grid[Index(p)] == MarkOf(s.activeTurn) != 0)
      && (Accepts(s, p) ==> t.activeTurn != s.activeTurn && t.activeTurn != NoPlayer)
      && (!Accepts(s, p) ==> t.grid == s.grid && t.activeTurn == s.activeTurn)
      && Consistent(t)
      && t.mode == s.mode && t.difficulty == s.difficulty
  {
  }

  /** A rejected move leaves a consistent state exactly as it was. */
  lemma RejectedMoveIsNoOp(s: State, p: Pos)
    requires OnBoard(p) && Consistent(s) && !Accepts(s, p)
    ensures ApplyMove(s, p) == s
  {
    MoveEffect(s, p);
  }

  predicate AllOnBoard(moves: seq<Pos>) {
    forall i :: 0 <= i < |moves| ==> OnBoard(moves[i])
  }

  /** The state after playing `moves` in order. */
  function Play(s: State, moves: seq<Pos>): State
    requires AllOnBoard(moves)
    decreases |moves|
  {
    if moves == [] then s else Play(ApplyMove(s, moves[0]), moves[1..])
  }

  /** How many of `moves` land on an empty cell when they are played. */
  function AcceptedCount(s: State, moves: seq<Pos>): (n: nat)
    requires AllOnBoard(moves)
    ensures n <= |moves|
    decreases |moves|
  {
    if moves == [] then 0
    else (if Accepts(s, moves[0]) then 1 else 0) + AcceptedCount(ApplyMove(s, moves[0]), moves[1..])
  }

  /** Over any sequence of moves the turn flips once per accepted move and
      never on a rejected one. */
  lemma {:induction false} PlayAlternatesTurn(s: State, moves: seq<Pos>)
    requires AllOnBoard(moves) && s.activeTurn != NoPlayer
    ensures Play(s, moves).activeTurn != NoPlayer
    ensures Play(s, moves).activeTurn == s.activeTurn <==> AcceptedCount(s, moves) % 2 == 0
    decreases |moves|
  {
    if moves != [] {
      var t := ApplyMove(s, moves[0]);
      var rest := TailOnBoard(moves);
      PlayAlternatesTurn(t, rest);
      assert Play(s, moves) == Play(t, rest);
      if Accepts(s, moves[0]) {
        assert t.activeTurn == Opponent(s.activeTurn);
        assert AcceptedCount(s, moves) == 1 + AcceptedCount(t, rest);
        ParityStep(AcceptedCount(t, rest));
        assert Play(t, rest).activeTurn == s.activeTurn <==> Play(t, rest).activeTurn != t.activeTurn;
      } else {
        assert t.activeTurn == s.activeTurn;
        assert AcceptedCount(s, moves) == AcceptedCount(t, rest);
      }
    }
  }

  /** Over any sequence of moves every accepted move fills exactly one free
      cell, and mode and difficulty never change. */
  lemma {:induction false} PlayFillsOneCellPerAcceptedMove(s: State, moves: seq<Pos>)
    requires AllOnBoard(moves)
    ensures ZeroCount(Play(s, moves).grid) == ZeroCount(s.grid) - AcceptedCount(s, moves)
    ensures Play(s, moves).mode == s.mode && Play(s, moves).difficulty == s.difficulty
    decreases |moves|
  {
    if moves != [] {
      var rest := TailOnBoard(moves);
      PlayFillsOneCellPerAcceptedMove(ApplyMove(s, moves[0]), rest);
      MoveEffect(s, moves[0]);
    }
  }

  /** The moves after the first, still all on the board. */
  function TailOnBoard(moves: seq<Pos>): (rest: seq<Pos>)
    requires AllOnBoard(moves) && moves != []
    ensures rest == moves[1..] && AllOnBoard(rest)
  {
    assert forall i :: 0 <= i < |moves[1..]| ==> moves[1..][i] == moves[i + 1];
    moves[1..]
  }

  /** One more accepted move flips the parity of the count. */
  lemma ParityStep(n: nat)
    ensures (1 + n) % 2 == 0 <==> n % 2 != 0
  {
  }

  /** From a new game, X is to move exactly after an even number of accepted
      moves. */
  lemma TurnAlternates(mode: GameMode, difficulty: Difficulty, moves: seq<Pos>)
    requires AllOnBoard(moves)
    ensures Play(Initial(mode, difficulty), moves).activeTurn == X
        <==> AcceptedCount(Initial(mode, difficulty), moves) % 2 == 0
    ensures AcceptedCount(Initial(mode, difficulty), moves) <= 9
  {
    PlayAlternatesTurn(Initial(mode, difficulty), moves);
    PlayFillsOneCellPerAcceptedMove(Initial(mode, difficulty), moves);
    assert ZeroCount(EmptyGrid) == 9;
  }

  /** A new game is consistent and every cell is free. */
  lemma InitialIsConsistent(mode: GameMode, difficulty: Difficulty)
    ensures Consistent(Initial(mode, difficulty))
    ensures ZeroCount(Initial(mode, difficulty).grid) == 9
  {
  }

  // ---------------------------------------------------------------------
  // Free cells (Game::availablePositions, Game::checkEmptyCell)
  // ---------------------------------------------------------------------

  /** The empty cells among the first n, in row-major order. */
  function EmptyCellsBefore(g: Grid, n: nat): (r: seq<Pos>)
    requires n <= 9
    ensures forall i :: 0 <= i < |r| ==> OnBoard(r[i]) && Index(r[i]) < n && g[Index(r[i])] == 0
    ensures forall i, j :: 0 <= i < j < |r| ==> Index(r[i]) < Index(r[j])
    ensures forall k {:trigger PosOf(k)} :: 0 <= k < n && g[k] == 0 ==> PosOf(k) in r
  {
    if n == 0 then []
    else EmptyCellsBefore(g, n - 1) + (if g[n - 1] == 0 then [PosOf(n - 1)] else [])
  }

  /** One position per empty cell among the first n. */
  lemma {:induction false} EmptyCellsBeforeCount(g: Grid, n: nat)
    requires n <= 9
    ensures |EmptyCellsBefore(g, n)| == multiset(g[..n])[0]
  {
    if n > 0 {
      EmptyCellsBeforeCount(g, n - 1);
      assert g[..n] == g[..n - 1] + [g[n - 1]];
    }
  }

  /** All empty cells, each once, in row-major order. */
  function EmptyCells(g: Grid): (r: seq<Pos>)
    ensures forall p :: p in r <==> OnBoard(p) && g[Index(p)] == 0
    ensures forall i, j :: 0 <= i < j < |r| ==> Index(r[i]) < Index(r[j])
    ensures |r| == ZeroCount(g)
  {
    var r := EmptyCellsBefore(g, 9);
    EmptyCellsBeforeCount(g, 9);
    assert g[..9] == g;
    forall p | OnBoard(p) && g[Index(p)] == 0 ensures p in r {
      assert PosOf(Index(p)) == p;
    }
    r
  }

  // ---------------------------------------------------------------------
  // Scoring (Game::score)
  // ---------------------------------------------------------------------

  function Winner(status: GameStatus): Option<Player> {
    match status
    case XWin => Some(X)
    case OWin => Some(O)
    case _ => None
  }

  /** +10 when `player` has won, -10 when X or O has won and `player` is the
      other one of the two, 0 for a draw, a game still in play, or a player
      that is neither X nor O. */
  function Score(status: GameStatus, player: Player): (r: int)
    ensures r in {-10, 0, 10}
    ensures r == 10 <==> Winner(status) == Some(player)
    ensures r == -10 <==> Winner(status).Some? && player != NoPlayer && Winner(status) != Some(player)
  {
    if status == XWin && player == X then 10
    else if status == OWin && player == O then 10
    else if status == Draw then 0
    else if status == OWin && player == X then -10
    else if status == XWin && player == O then -10
    else assert Winner(status) == None || player == NoPlayer; 0
  }
}
