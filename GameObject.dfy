/** The mutable `Game` object of include/game.hpp and src/game.cpp: a 3x3
    grid of ints updated in place, with the turn, status, mode and
    difficulty beside it. Each method is proved to do to the object what the
    functions of modules Rules, Search and Codec say; Value() is the state
    those functions talk about. */
module GameObject {
  import opened Globals
  import opened Rules
  import Search
  import Codec

  class Game {
    var grid: array2<int>
    var activeTurn: Player
    var status: GameStatus
    var mode: GameMode
    var difficulty: Difficulty

    /** The grid read row-major, kept beside the array. */
    ghost var board: Grid

    ghost predicate Valid()
      reads this`grid, this`board, grid
    {
      && grid.Length0 == 3 && grid.Length1 == 3
      && forall r, c :: 0 <= r < 3 && 0 <= c < 3 ==> grid[r, c] == board[3 * r + c]
    }

    /** The fields of this game as a value. */
    ghost function Value(): State
      reads this
    {
      State(board, activeTurn, status, mode, difficulty)
    }

    /** Game(mode, difficulty): an empty grid, X to move, still playing. */
    constructor (mode: GameMode := NoMode, difficulty: Difficulty := Default)
      ensures Valid() && fresh(grid)
      ensures Value() == Initial(mode, difficulty)
    {
      grid := new int[3, 3]((r, c) => 0);
      board := EmptyGrid;
      activeTurn := X;
      status := Playing;
      this.mode := mode;
      this.difficulty := difficulty;
    }

    /** Game(oldGame, move): a copy of oldGame, with its own grid, to which
        `move` is then applied. oldGame itself is left as it was. */
    constructor FromMove(oldGame: Game, move: Pos)
      requires oldGame.Valid() && OnBoard(move)
      ensures Valid() && fresh(grid)
      ensures Value() == ApplyMove(oldGame.Value(), move)
      ensures oldGame.Value() == old(oldGame.Value())
    {
      activeTurn := oldGame.activeTurn;
      status := oldGame.status;
      mode := oldGame.mode;
      difficulty := oldGame.difficulty;
      var copy := new int[3, 3];
      for r := 0 to 3
        invariant forall r', c' :: 0 <= r' < r && 0 <= c' < 3 ==> copy[r', c'] == oldGame.grid[r', c']
      {
        for c := 0 to 3
          invariant forall r', c' :: 0 <= r' < r && 0 <= c' < 3 ==> copy[r', c'] == oldGame.grid[r', c']
          invariant forall c' :: 0 <= c' < c ==> copy[r, c'] == oldGame.grid[r, c']
        {
          copy[r, c] := oldGame.grid[r, c];
        }
      }
      grid := copy;
      board := oldGame.board;
      new;
      PlayerMove(move.row, move.col);
    }

    /** checkEmptyCell: whether playerMove would accept a move there. */
    function CheckEmptyCell(row: int, col: int): (empty: bool)
      reads this, grid
      requires Valid() && 0 <= row < 3 && 0 <= col < 3
      ensures empty <==> Accepts(Value(), Pos(row, col))
    {
      grid[row, col] == 0
    }

    /** updateGameStatus: rows and columns first, interleaved by index, then
        the two diagonals, then a scan for an empty cell. */
    method UpdateGameStatus()
      requires Valid()
      modifies this`status
      ensures status == StatusOf(board)
    {
      for i := 0 to 3
        invariant StatusOf(board) == ScanRowsAndColumns(board, i)
      {
        assert grid[i, 0] == board[3 * i] && grid[i, 1] == board[3 * i + 1] && grid[i, 2] == board[3 * i + 2];
        if grid[i, 0] != 0 && grid[i, 0] == grid[i, 1] && grid[i, 1] == grid[i, 2] {
          status := if grid[i, 0] == 1 then XWin else OWin;
          return;
        }
        assert grid[0, i] == board[i] && grid[1, i] == board[3 + i] && grid[2, i] == board[6 + i];
        if grid[0, i] != 0 && grid[0, i] == grid[1, i] && grid[1, i] == grid[2, i] {
          status := if grid[0, i] == 1 then XWin else OWin;
          return;
        }
      }

      assert grid[0, 0] == board[0] && grid[1, 1] == board[4] && grid[2, 2] == board[8];
      if grid[0, 0] != 0 && grid[0, 0] == grid[1, 1] && grid[1, 1] == grid[2, 2] {
        status := if grid[0, 0] == 1 then XWin else OWin;
        return;
      }
      assert grid[0, 2] == board[2] && grid[2, 0] == board[6];
      if grid[0, 2] != 0 && grid[0, 2] == grid[1, 1] && grid[1, 1] == grid[2, 0] {
        status := if grid[0, 2] == 1 then XWin else OWin;
        return;
      }

      var isDraw := true;
      for row := 0 to 3
        invariant isDraw
        invariant forall k :: 0 <= k < 3 * row ==> board[k] != 0
      {
        for col := 0 to 3
          invariant isDraw
          invariant forall k :: 0 <= k < 3 * row + col ==> board[k] != 0
        {
          if grid[row, col] == 0 {
            assert board[3 * row + col] == 0;
            isDraw := false;
            break;
          }
        }
        if !isDraw {
          break;
        }
      }

      if isDraw {
        status := Draw;
        return;
      }
      status := Playing;
    }

    /** playerMove: see Rules.ApplyMove. */
    method PlayerMove(row: int, col: int)
      requires Valid() && 0 <= row < 3 && 0 <= col < 3
      modifies this, grid
      ensures Valid() && grid == old(grid)
      ensures Value() == ApplyMove(old(Value()), Pos(row, col))
    {
      if grid[row, col] == 0 {
        var mark := if activeTurn == X then 1 else 2;
        grid[row, col] := mark;
        board := board[3 * row + col := mark];
        activeTurn := if activeTurn == X then O else X;
      }
      UpdateGameStatus();
    }

    /** resetGame: every cell emptied and the status back to playing; turn,
        mode and difficulty are kept. */
    method ResetGame()
      requires Valid()
      modifies this`board, this`status, grid
      ensures Valid()
      ensures Value() == old(Value()).(grid := EmptyGrid, status := Playing)
      ensures Consistent(Value())
    {
      for r := 0 to 3
        invariant forall r', c' :: 0 <= r' < r && 0 <= c' < 3 ==> grid[r', c'] == 0
      {
        for c := 0 to 3
          invariant forall r', c' :: 0 <= r' < 3 && 0 <= c' < 3 && 3 * r' + c' < 3 * r + c ==> grid[r', c'] == 0
        {
          grid[r, c] := 0;
        }
      }
      board := EmptyGrid;
      status := Playing;
      InitialIsConsistent(mode, difficulty);
    }

    /** availablePositions: the empty cells, row by row. */
    method AvailablePositions() returns (positions: seq<Pos>)
      requires Valid()
      ensures positions == EmptyCells(board)
    {
      ghost var g := board;
      positions := [];
      for i := 0 to 3
        invariant positions == EmptyCellsBefore(g, 3 * i)
      {
        for j := 0 to 3
          invariant positions == EmptyCellsBefore(g, 3 * i + j)
        {
          assert PosOf(3 * i + j) == Pos(i, j) && g[3 * i + j] == grid[i, j];
          if grid[i, j] == 0 {
            positions := positions + [Pos(i, j)];
          }
        }
      }
    }

    /** getNewState: a fresh game one move on from this one. */
    method GetNewState(move: Pos) returns (next: Game)
      requires Valid() && OnBoard(move)
      ensures fresh(next) && fresh(next.grid) && next.Valid()
      ensures next.Value() == ApplyMove(Value(), move)
    {
      next := new Game.FromMove(this, move);
    }

    /** serialize: see Codec.Encode. */
    method Serialize() returns (text: string)
      requires Valid()
      ensures text == Codec.Encode(Value())
    {
      ghost var cells := Codec.CellTexts(board);
      text := "";
      for r := 0 to 3
        invariant text == Codec.Terminated(cells[..3 * r])
      {
        for c := 0 to 3
          invariant text == Codec.Terminated(cells[..3 * r + c])
        {
          Codec.TerminatedSnoc(cells, 3 * r + c);
          text := text + Codec.IntText(grid[r, c]) + " ";
        }
      }
      assert cells[..9] == cells;
      var fields := Codec.IntText(activeTurn.Ordinal()) + " " + Codec.IntText(status.Ordinal())
                    + " " + Codec.IntText(mode.Ordinal()) + " " + Codec.IntText(difficulty.Ordinal());
      Codec.JoinedFour(Codec.FieldTexts(Value()));
      text := text + fields;
    }

    /** deserialize on well-formed text: every field is replaced by the one
        the text holds. */
    method Deserialize(data: string)
      requires Valid() && Codec.Decode(data).Some?
      modifies this, grid
      ensures Valid() && grid == old(grid)
      ensures Value() == Codec.Decode(data).value
    {
      var toks := Codec.Tokens(data);
      Codec.DecodedTokens(data);
      ghost var decoded := Codec.Decode(data).value;
      ReadCells(toks, decoded.grid);
      board := decoded.grid;
      activeTurn := PlayerOf(Codec.ParseInt(toks[9]).value).value;
      status := GameStatusOf(Codec.ParseInt(toks[10]).value).value;
      mode := GameModeOf(Codec.ParseInt(toks[11]).value).value;
      difficulty := DifficultyOf(Codec.ParseInt(toks[12]).value).value;
    }

    /** The first loop of deserialize: the first nine tokens are read, in
        row-major order, into the cells of the grid. */
    method ReadCells(toks: seq<string>, ghost cells: Grid)
      requires grid.Length0 == 3 && grid.Length1 == 3 && |toks| >= 9
      requires forall k :: 0 <= k < 9 ==> Codec.ParseInt(toks[k]) == Some(cells[k])
      modifies grid
      ensures forall r, c :: 0 <= r < 3 && 0 <= c < 3 ==> grid[r, c] == cells[3 * r + c]
    {
      for r := 0 to 3
        invariant forall r', c' :: 0 <= r' < r && 0 <= c' < 3 ==> grid[r', c'] == cells[3 * r' + c']
      {
        for c := 0 to 3
          invariant forall r', c' :: 0 <= r' < 3 && 0 <= c' < 3 && 3 * r' + c' < 3 * r + c ==>
            grid[r', c'] == cells[3 * r' + c']
        {
          grid[r, c] := Codec.ParseInt(toks[3 * r + c]).value;
        }
      }
    }
  }

  /** minimax(game, move, computer), with `game` passed by value. A finished
      game scores at once and leaves `move` unassigned (None here).
      Otherwise each free cell's successor is searched in turn (ScoreMoves),
      and the first maximum (computer to move) or first minimum (opponent
      to move) of the scores is taken, with its cell. */
  method Minimax(game: Game, computer: Player) returns (move: Option<Pos>, score: int)
    requires game.Valid() && Search.Searchable(game.Value())
    ensures Search.Choice(move, score) == Search.Minimax(game.Value(), computer)
    decreases ZeroCount(game.board), 1
  {
    if game.status != Playing {
      return None, Score(game.status, computer);
    }
    var moves := game.AvailablePositions();
    var scores := ScoreMoves(game, moves, computer);
    Search.ChoiceFromScores(game.Value(), computer, scores);
    var k := if game.activeTurn == computer then Search.FirstMax(scores) else Search.FirstMin(scores);
    move := Some(moves[k]);
    score := scores[k];
  }

  /** The loop of minimax: for each move in order, a fresh copy of the game
      with that move applied is searched, and its score is appended. */
  method ScoreMoves(game: Game, moves: seq<Pos>, computer: Player) returns (scores: seq<int>)
    requires game.Valid() && Search.Searchable(game.Value())
    requires Search.FreeIn(game.Value(), moves)
    ensures scores == Search.ChildScores(game.Value(), moves, computer)
    decreases ZeroCount(game.board), 0
  {
    ghost var s := game.Value();
    scores := [];
    for i := 0 to |moves|
      invariant scores == Search.ChildScores(s, moves[..i], computer)
    {
      PrefixSnoc(moves, i);
      var possibleGame := game.GetNewState(moves[i]);
      var _, childScore := Minimax(possibleGame, computer);
      scores := scores + [childScore];
    }
    assert moves[..|moves|] == moves;
  }

  /** Taking one more element of a sequence appends that element. */
  lemma PrefixSnoc<T>(a: seq<T>, i: nat)
    requires i < |a|
    ensures a[..i + 1] == a[..i] + [a[i]]
    ensures (a[..i] + [a[i]])[..i] == a[..i]
  {
  }
}
