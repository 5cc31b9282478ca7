/** The enumerations shared by the game state and its wire format, with the
    ordinals the C++ compiler assigns them (declaration order, from 0). The
    codec writes and reads these ordinals, so they are part of the format. */
module Globals {

  datatype Option<T> = None | Some(value: T)

  /** PLAYER: X = 0, O = 1, NONE = 2. */
  datatype Player = X | O | NoPlayer {
    function Ordinal(): (n: nat)
      ensures n < 3
    {
      match this
      case X => 0
      case O => 1
      case NoPlayer => 2
    }
  }

  /** The enum value with ordinal `n`, if there is one. */
  function PlayerOf(n: int): (r: Option<Player>)
    ensures r.Some? <==> 0 <= n < 3
    ensures r.Some? ==> r.value.Ordinal() == n
  {
    if n == 0 then Some(X)
    else if n == 1 then Some(O)
    else if n == 2 then Some(NoPlayer)
    else None
  }

  /** GAMESTATUS: X_WIN = 0, O_WIN = 1, DRAW = 2, PLAYING = 3. */
  datatype GameStatus = XWin | OWin | Draw | Playing {
    function Ordinal(): (n: nat)
      ensures n < 4
    {
      match this
      case XWin => 0
      case OWin => 1
      case Draw => 2
      case Playing => 3
    }
  }

  function GameStatusOf(n: int): (r: Option<GameStatus>)
    ensures r.Some? <==> 0 <= n < 4
    ensures r.Some? ==> r.value.Ordinal() == n
  {
    if n == 0 then Some(XWin)
    else if n == 1 then Some(OWin)
    else if n == 2 then Some(Draw)
    else if n == 3 then Some(Playing)
    else None
  }

  /** GAMEMODE: MULTIPLAYER = 0, SINGLE_PLAYER = 1, NO_MODE = 2. */
  datatype GameMode = Multiplayer | SinglePlayer | NoMode {
    function Ordinal(): (n: nat)
      ensures n < 3
    {
      match this
      case Multiplayer => 0
      case SinglePlayer => 1
      case NoMode => 2
    }
  }

  function GameModeOf(n: int): (r: Option<GameMode>)
    ensures r.Some? <==> 0 <= n < 3
    ensures r.Some? ==> r.value.Ordinal() == n
  {
    if n == 0 then Some(Multiplayer)
    else if n == 1 then Some(SinglePlayer)
    else if n == 2 then Some(NoMode)
    else None
  }

  /** DIFFICULTY: EASY = 0, HARD = 1, DEFAULT = 2. */
  datatype Difficulty = Easy | Hard | Default {
    function Ordinal(): (n: nat)
      ensures n < 3
    {
      match this
      case Easy => 0
      case Hard => 1
      case Default => 2
    }
  }

  function DifficultyOf(n: int): (r: Option<Difficulty>)
    ensures r.Some? <==> 0 <= n < 3
    ensures r.Some? ==> r.value.Ordinal() == n
  {
    if n == 0 then Some(Easy)
    else if n == 1 then Some(Hard)
    else if n == 2 then Some(Default)
    else None
  }

  /** Reading back a written ordinal gives the value that was written. */
  lemma OrdinalsRoundTrip(p: Player, st: GameStatus, m: GameMode, d: Difficulty)
    ensures PlayerOf(p.Ordinal()) == Some(p)
    ensures GameStatusOf(st.Ordinal()) == Some(st)
    ensures GameModeOf(m.Ordinal()) == Some(m)
    ensures DifficultyOf(d.Ordinal()) == Some(d)
  {
  }
}
