/** The computer's move selection: exhaustive minimax over the successors of
    a state, with no pruning, taking the first best child in the order
    `EmptyCells` lists them (the free function `minimax` in src/game.cpp). */
module Search {
  import opened Globals
  import opened Rules

  /** A state minimax can be asked about: one that is still in play has a
      free cell to move to. Every state a move produces is of this kind. */
  predicate Searchable(s: State) {
    s.status == Playing ==> ZeroCount(s.grid) > 0
  }

  /** The result of a search: the move left in the caller's out-parameter
      (None when the search assigns none) and the score. */
  datatype Choice = Choice(move: Option<Pos>, score: int)

  /** k is the first index holding the largest element of a. */
  predicate IsFirstMax(a: seq<int>, k: int) {
    && 0 <= k < |a|
    && (forall j :: 0 <= j < |a| ==> a[j] <= a[k])
    && (forall j :: 0 <= j < k ==> a[j] < a[k])
  }

  /** k is the first index holding the smallest element of a. */
  predicate IsFirstMin(a: seq<int>, k: int) {
    && 0 <= k < |a|
    && (forall j :: 0 <= j < |a| ==> a[k] <= a[j])
    && (forall j :: 0 <= j < k ==> a[k] < a[j])
  }

  /** std::max_element: the first position of a maximum. */
  function FirstMax(a: seq<int>): (k: nat)
    requires |a| > 0
    ensures IsFirstMax(a, k)
  {
    if |a| == 1 then 0
    else
      var k := FirstMax(a[..|a| - 1]);
      if a[k] < a[|a| - 1] then |a| - 1 else k
  }

  /** std::min_element: the first position of a minimum. */
  function FirstMin(a: seq<int>): (k: nat)
    requires |a| > 0
    ensures IsFirstMin(a, k)
  {
    if |a| == 1 then 0
    else
      var k := FirstMin(a[..|a| - 1]);
      if a[|a| - 1] < a[k] then |a| - 1 else k
  }

  /** Minimax from the point of view of `computer`. A finished game scores
      +10, -10 or 0 and assigns no move. Otherwise every free cell is tried
      in row-major order; on the computer's turn the result is the first
      child of highest score, on the opponent's turn the first child of
      lowest score, and the move is that child's cell (MinimaxChoice). */
  function Minimax(s: State, computer: Player): (c: Choice)
    requires Searchable(s)
    ensures c.score in {-10, 0, 10}
    ensures s.status != Playing ==> c == Choice(None, Score(s.status, computer))
    decreases ZeroCount(s.grid)
  {
    if s.status != Playing then Choice(None, Score(s.status, computer))
    else
      var moves := EmptyCells(s.grid);
      var scores := ChildScores(s, moves, computer);
      var k := if s.activeTurn == computer then FirstMax(scores) else FirstMin(scores);
      Choice(Some(moves[k]), scores[k])
  }

  /** All cells in `moves` are free in s. */
  predicate FreeIn(s: State, moves: seq<Pos>) {
    forall i :: 0 <= i < |moves| ==> OnBoard(moves[i]) && Accepts(s, moves[i])
  }

  /** The scores of the children reached by `moves`, in the same order
      (ChildScoresAt). */
  function ChildScores(s: State, moves: seq<Pos>, computer: Player): (r: seq<int>)
    requires FreeIn(s, moves)
    ensures |r| == |moves|
    ensures forall i :: 0 <= i < |r| ==> r[i] in {-10, 0, 10}
    decreases ZeroCount(s.grid), |moves|
  {
    if moves == [] then []
    else
      var last := moves[|moves| - 1];
      ChildScores(s, moves[..|moves| - 1], computer) + [Minimax(ApplyMove(s, last), computer).score]
  }

  /** The i-th child score is the minimax score of the state the i-th move
      leads to. */
  lemma {:induction false} ChildScoresAt(s: State, moves: seq<Pos>, computer: Player, i: nat)
    requires FreeIn(s, moves) && i < |moves|
    ensures ChildScores(s, moves, computer)[i] == Minimax(ApplyMove(s, moves[i]), computer).score
    decreases |moves|
  {
    if i < |moves| - 1 {
      var front := moves[..|moves| - 1];
      ChildScoresAt(s, front, computer, i);
      assert front[i] == moves[i];
    }
  }

  /** On a state in play, the search's answer is read off the child scores
      listed in the order of the free cells: the cell and the score at
      their first maximum (computer to move) or first minimum. */
  lemma ChoiceFromScores(s: State, computer: Player, scores: seq<int>)
    requires Searchable(s) && s.status == Playing
    requires scores == ChildScores(s, EmptyCells(s.grid), computer)
    ensures |scores| == |EmptyCells(s.grid)| > 0
    ensures var k := if s.activeTurn == computer then FirstMax(scores) else FirstMin(scores);
      Minimax(s, computer) == Choice(Some(EmptyCells(s.grid)[k]), scores[k])
  {
  }

  /** On a state in play, the move chosen is a free cell, and it is the
      first child of highest score when `computer` is to move and the first
      child of lowest score otherwise; the score is that child's. */
  lemma MinimaxChoice(s: State, computer: Player)
    requires Searchable(s) && s.status == Playing
    ensures var c := Minimax(s, computer);
      c.move.Some? && OnBoard(c.move.value) && Accepts(s, c.move.value)
    ensures var c := Minimax(s, computer);
      var moves := EmptyCells(s.grid);
      var scores := ChildScores(s, moves, computer);
      exists k :: 0 <= k < |moves|
        && c == Choice(Some(moves[k]), scores[k])
        && (if s.activeTurn == computer then IsFirstMax(scores, k) else IsFirstMin(scores, k))
  {
    var moves := EmptyCells(s.grid);
    var scores := ChildScores(s, moves, computer);
    var k := if s.activeTurn == computer then FirstMax(scores) else FirstMin(scores);
    assert Minimax(s, computer) == Choice(Some(moves[k]), scores[k]);
  }

  /** When the computer is to move and some free cell wins on the spot,
      the search scores 10. */
  lemma ImmediateWin(s: State, computer: Player, p: Pos)
    requires s.status == Playing && ZeroCount(s.grid) > 0 && s.activeTurn == computer
    requires OnBoard(p) && Accepts(s, p) && Winner(ApplyMove(s, p).status) == Some(computer)
    ensures Minimax(s, computer).score == 10
  {
    var moves := EmptyCells(s.grid);
    var scores := ChildScores(s, moves, computer);
    var i :| 0 <= i < |moves| && moves[i] == p;
    ChildScoresAt(s, moves, computer, i);
    assert scores[i] == 10;
    MinimaxChoice(s, computer);
    var k :| 0 <= k < |moves| && Minimax(s, computer) == Choice(Some(moves[k]), scores[k])
      && IsFirstMax(scores, k);
    assert scores[i] <= scores[k];
  }

  /** When the opponent is to move and some free cell wins for the opponent
      on the spot, the search scores -10. */
  lemma ImmediateLoss(s: State, computer: Player, p: Pos)
    requires s.status == Playing && ZeroCount(s.grid) > 0 && s.activeTurn != computer
    requires computer != NoPlayer
    requires OnBoard(p) && Accepts(s, p)
    requires Winner(ApplyMove(s, p).status).Some? && Winner(ApplyMove(s, p).status) != Some(computer)
    ensures Minimax(s, computer).score == -10
  {
    var moves := EmptyCells(s.grid);
    var scores := ChildScores(s, moves, computer);
    var i :| 0 <= i < |moves| && moves[i] == p;
    ChildScoresAt(s, moves, computer, i);
    assert scores[i] == -10;
    MinimaxChoice(s, computer);
    var k :| 0 <= k < |moves| && Minimax(s, computer) == Choice(Some(moves[k]), scores[k])
      && IsFirstMin(scores, k);
    assert scores[k] <= scores[i];
  }

  /** When the computer is to move and the first free cell in row-major
      order wins on the spot, the search picks that cell with score 10. */
  lemma FirstFreeCellWins(s: State, computer: Player)
    requires s.status == Playing && ZeroCount(s.grid) > 0 && s.activeTurn == computer
    requires Winner(ApplyMove(s, EmptyCells(s.grid)[0]).status) == Some(computer)
    ensures Minimax(s, computer) == Choice(Some(EmptyCells(s.grid)[0]), 10)
  {
    var moves := EmptyCells(s.grid);
    var scores := ChildScores(s, moves, computer);
    ChildScoresAt(s, moves, computer, 0);
    TopScoreFirst(scores);
  }

  /** A list of scores that starts with the top score 10 has its first
      maximum at 0. */
  lemma TopScoreFirst(scores: seq<int>)
    requires |scores| > 0 && scores[0] == 10
    requires forall i :: 0 <= i < |scores| ==> scores[i] in {-10, 0, 10}
    ensures FirstMax(scores) == 0
  {
    var k := FirstMax(scores);
    assert scores[k] <= 10;
  }

  /** With X X . on the top row, X to move and the computer playing X,
      whatever the rest of the board holds, the search completes the top
      row at (0, 2) and scores 10. */
  lemma CompletesTopRow(s: State)
    requires s.status == Playing && s.activeTurn == X
    requires s.grid[0] == 1 && s.grid[1] == 1 && s.grid[2] == 0
    ensures Minimax(s, X) == Choice(Some(Pos(0, 2)), 10)
  {
    var p := Pos(0, 2);
    assert p in EmptyCells(s.grid);
    var moves := EmptyCells(s.grid);
    var i :| 0 <= i < |moves| && moves[i] == p;
    assert OnBoard(moves[0]) && s.grid[Index(moves[0])] == 0;
    assert Index(moves[0]) >= Index(p);
    assert i == 0;
    var g := ApplyMove(s, p).grid;
    MoveEffect(s, p);
    assert Complete(g, 0, 1, 2);
    assert StatusOf(g) == XWin;
    FirstFreeCellWins(s, X);
  }
}
