/** The text snapshot of a game sent to the peer (Game::serialize and
    Game::deserialize): the nine cells in row-major order, each followed by a
    space, then the ordinals of activeTurn, status, mode and difficulty
    separated by single spaces, 13 decimal integers in all. */
module Codec {
  import opened Globals
  import opened Rules

  // ---------------------------------------------------------------------
  // Decimal integers
  // ---------------------------------------------------------------------

  predicate IsDigit(c: char) {
    '0' <= c <= '9'
  }

  predicate AllDigits(s: string) {
    forall i :: 0 <= i < |s| ==> IsDigit(s[i])
  }

  /** The whitespace that formatted input skips between numbers. */
  predicate IsSpace(c: char) {
    c == ' ' || c == '\t' || c == '\n' || c == '\r' || c == '\U{000B}' || c == '\U{000C}'
  }

  function DigitChar(d: nat): (c: char)
    requires d < 10
    ensures IsDigit(c)
  {
    "0123456789"[d]
  }

  function DigitValue(c: char): (d: nat)
    requires IsDigit(c)
    ensures d < 10
  {
    (c as int - '0' as int)
  }

  /** The decimal digits of n, most significant first, without leading
      zeros. */
  function NatText(n: nat): (s: string)
    ensures |s| > 0 && AllDigits(s)
  {
    if n < 10 then [DigitChar(n)] else NatText(n / 10) + [DigitChar(n % 10)]
  }

  /** How `<<` writes an int: a minus sign for a negative number, then its
      digits. */
  function IntText(x: int): (s: string)
    ensures |s| > 0 && forall i :: 0 <= i < |s| ==> !IsSpace(s[i])
  {
    if x < 0 then "-" + NatText(-x) else NatText(x)
  }

  function DigitsValue(s: string): nat
    requires AllDigits(s)
  {
    if s == [] then 0 else DigitsValue(s[..|s| - 1]) * 10 + DigitValue(s[|s| - 1])
  }

  /** How `>>` reads one whitespace-delimited int: an optional sign, then at
      least one digit. Anything else is a parse failure. */
  function ParseInt(tok: string): Option<int> {
    if |tok| > 1 && tok[0] == '-' && AllDigits(tok[1..]) then Some(0 - DigitsValue(tok[1..]))
    else if |tok| > 1 && tok[0] == '+' && AllDigits(tok[1..]) then Some(DigitsValue(tok[1..]))
    else if |tok| > 0 && AllDigits(tok) then Some(DigitsValue(tok))
    else None
  }

  lemma {:induction false} NatTextRoundTrip(n: nat)
    ensures DigitsValue(NatText(n)) == n
    decreases n
  {
    if n >= 10 {
      var front := NatText(n / 10);
      var s := front + [DigitChar(n % 10)];
      assert s[..|s| - 1] == front;
      NatTextRoundTrip(n / 10);
    }
  }

  /** Reading back a written int gives the int. */
  lemma IntTextRoundTrip(x: int)
    ensures ParseInt(IntText(x)) == Some(x)
  {
    if x < 0 {
      var digits := NatText(-x);
      var tok := "-" + digits;
      assert tok[0] == '-' && tok[1..] == digits;
      NatTextRoundTrip(-x);
    } else {
      var digits := NatText(x);
      assert digits[0] != '-' && digits[0] != '+';
      NatTextRoundTrip(x);
    }
  }

  // ---------------------------------------------------------------------
  // Splitting text into whitespace-separated tokens
  // ---------------------------------------------------------------------

  /** A non-empty run of non-space characters. */
  predicate IsWord(w: string) {
    |w| > 0 && forall i :: 0 <= i < |w| ==> !IsSpace(w[i])
  }

  /** The length of the run of non-space characters that s starts with. */
  function WordLength(s: string): (n: nat)
    ensures n <= |s|
    ensures forall i :: 0 <= i < n ==> !IsSpace(s[i])
    ensures n < |s| ==> IsSpace(s[n])
  {
    if s == [] || IsSpace(s[0]) then 0 else 1 + WordLength(s[1..])
  }

  /** The tokens of s, in order. */
  function Tokens(s: string): seq<string>
    decreases |s|
  {
    if s == [] then []
    else if IsSpace(s[0]) then Tokens(s[1..])
    else
      var n := WordLength(s);
      [s[..n]] + Tokens(s[n..])
  }

  lemma {:induction false} WordLengthOfWord(w: string, rest: string)
    requires forall i :: 0 <= i < |w| ==> !IsSpace(w[i])
    requires rest == [] || IsSpace(rest[0])
    ensures WordLength(w + rest) == |w|
    decreases |w|
  {
    if w != [] {
      assert (w + rest)[1..] == w[1..] + rest;
      WordLengthOfWord(w[1..], rest);
    } else {
      assert w + rest == rest;
    }
  }

  /** A word followed by a space or by nothing is one token. */
  lemma TokensOfWord(w: string, rest: string)
    requires IsWord(w)
    requires rest == [] || IsSpace(rest[0])
    ensures Tokens(w + rest) == [w] + Tokens(rest)
  {
    WordLengthOfWord(w, rest);
    var s := w + rest;
    assert s[..|w|] == w && s[|w|..] == rest;
  }

  // ---------------------------------------------------------------------
  // The snapshot format
  // ---------------------------------------------------------------------

  /** Each word followed by a space, as the grid loop writes cells. */
  function Terminated(ws: seq<string>): string {
    if ws == [] then "" else Terminated(ws[..|ws| - 1]) + ws[|ws| - 1] + " "
  }

  /** Terminating one more word of a list extends the text by that word
      and a space. */
  lemma TerminatedSnoc(ws: seq<string>, n: nat)
    requires n < |ws|
    ensures Terminated(ws[..n + 1]) == Terminated(ws[..n]) + ws[n] + " "
  {
    assert ws[..n + 1][..n] == ws[..n];
  }

  /** Words separated by single spaces, with no space after the last. */
  function Joined(ws: seq<string>): string {
    if |ws| <= 1 then (if ws == [] then "" else ws[0]) else ws[0] + " " + Joined(ws[1..])
  }

  lemma {:induction false} TerminatedCons(w: string, ws: seq<string>)
    ensures Terminated([w] + ws) == w + " " + Terminated(ws)
    decreases |ws|
  {
    if ws != [] {
      var front := ws[..|ws| - 1];
      assert ([w] + ws)[..|ws|] == [w] + front;
      TerminatedCons(w, front);
    }
  }

  /** Putting a sequence's head back in front of its tail. */
  lemma HeadThenTail<T>(ws: seq<T>, more: seq<T>)
    requires ws != []
    ensures [ws[0]] + (ws[1..] + more) == ws + more
  {
    assert [ws[0]] + ws[1..] == ws;
  }

  /** The tokens of space-terminated words followed by more text. */
  lemma {:induction false} TokensOfTerminated(ws: seq<string>, rest: string)
    requires forall i :: 0 <= i < |ws| ==> IsWord(ws[i])
    ensures Tokens(Terminated(ws) + rest) == ws + Tokens(rest)
    decreases |ws|
  {
    if ws != [] {
      var w := ws[0];
      var tail := Terminated(ws[1..]) + rest;
      assert Terminated(ws) + rest == w + (" " + tail) by {
        TerminatedCons(w, ws[1..]);
        assert [w] + ws[1..] == ws;
      }
      assert Tokens(" " + tail) == Tokens(tail) by {
        assert (" " + tail)[1..] == tail;
      }
      TokensOfWord(w, " " + tail);
      TokensOfTerminated(ws[1..], rest);
      HeadThenTail(ws, Tokens(rest));
    } else {
      assert Terminated(ws) + rest == rest;
    }
  }

  /** The tokens of words joined by single spaces are those words. */
  lemma {:induction false} TokensOfJoined(ws: seq<string>)
    requires forall i :: 0 <= i < |ws| ==> IsWord(ws[i])
    ensures Tokens(Joined(ws)) == ws
    decreases |ws|
  {
    if |ws| == 1 {
      TokensOfWord(ws[0], "");
      assert ws[0] + "" == ws[0];
    } else if |ws| > 1 {
      var tail := Joined(ws[1..]);
      assert Joined(ws) == ws[0] + (" " + tail);
      TokensOfWord(ws[0], " " + tail);
      assert Tokens(" " + tail) == Tokens(tail);
      TokensOfJoined(ws[1..]);
    }
  }

  /** Four words joined: each pair separated by one space. */
  lemma JoinedFour(ws: seq<string>)
    requires |ws| == 4
    ensures Joined(ws) == ws[0] + " " + ws[1] + " " + ws[2] + " " + ws[3]
  {
    var tail := ws[1..];
    assert Joined(tail[1..]) == ws[2] + " " + ws[3];
    assert Joined(tail) == ws[1] + " " + (ws[2] + " " + ws[3]);
  }

  /** Joined words end with the last character of the last word. */
  lemma {:induction false} JoinedEndsWithLastWord(ws: seq<string>)
    requires |ws| > 0 && forall i :: 0 <= i < |ws| ==> IsWord(ws[i])
    ensures var j := Joined(ws); var w := ws[|ws| - 1];
      |w| > 0 && |j| >= |w| && j[|j| - 1] == w[|w| - 1]
    decreases |ws|
  {
    if |ws| > 1 {
      JoinedEndsWithLastWord(ws[1..]);
      assert ws[1..][|ws| - 2] == ws[|ws| - 1];
    }
  }

  /** The texts of the nine cells, row-major. */
  function CellTexts(g: Grid): (ws: seq<string>)
    ensures |ws| == 9 && forall k :: 0 <= k < 9 ==> ws[k] == IntText(g[k])
  {
    seq(9, k requires 0 <= k < 9 => IntText(g[k]))
  }

  /** The texts of the four enum fields, in the order they are written. */
  function FieldTexts(s: State): seq<string> {
    [IntText(s.activeTurn.Ordinal()), IntText(s.status.Ordinal()),
     IntText(s.mode.Ordinal()), IntText(s.difficulty.Ordinal())]
  }

  /** serialize: every cell followed by a space, then the four ordinals
      separated by single spaces. */
  function Encode(s: State): string {
    Terminated(CellTexts(s.grid)) + Joined(FieldTexts(s))
  }

  /** The snapshot is exactly 13 tokens: the nine cells in row-major order,
      then turn, status, mode and difficulty; it does not end in a space. */
  lemma EncodeLayout(s: State)
    ensures Tokens(Encode(s)) == CellTexts(s.grid) + FieldTexts(s)
    ensures |Tokens(Encode(s))| == 13
    ensures Encode(s)[|Encode(s)| - 1] != ' '
  {
    var cells := CellTexts(s.grid);
    var fields := FieldTexts(s);
    assert forall i :: 0 <= i < |cells| ==> IsWord(cells[i]) by {
      forall i | 0 <= i < |cells|
        ensures IsWord(cells[i])
      {
        assert cells[i] == IntText(s.grid[i]);
      }
    }
    assert forall i :: 0 <= i < |fields| ==> IsWord(fields[i]);
    TokensOfTerminated(cells, Joined(fields));
    TokensOfJoined(fields);
    JoinedEndsWithLastWord(fields);
  }

  /** Parse every token; fail if any fails. */
  function ParseAll(toks: seq<string>): (r: Option<seq<int>>)
    ensures r.Some? ==> |r.value| == |toks|
    ensures r.Some? <==> forall i :: 0 <= i < |toks| ==> ParseInt(toks[i]).Some?
    ensures r.Some? ==> forall i :: 0 <= i < |toks| ==> Some(r.value[i]) == ParseInt(toks[i])
  {
    if toks == [] then Some([])
    else
      match (ParseInt(toks[0]), ParseAll(toks[1..]))
      case (Some(x), Some(xs)) => Some([x] + xs)
      case _ => None
  }

  /** deserialize on well-formed text: the first 13 tokens must be ints,
      the last four of them valid enum ordinals; anything after them is not
      read. Text with fewer tokens, a token that is not an int, or an
      ordinal outside its enum is malformed. */
  function Decode(text: string): (r: Option<State>)
    ensures r.Some? ==> |Tokens(text)| >= 13
  {
    var toks := Tokens(text);
    if |toks| < 13 then None
    else
      match ParseAll(toks[..13])
      case None => None
      case Some(v) =>
        match (PlayerOf(v[9]), GameStatusOf(v[10]), GameModeOf(v[11]), DifficultyOf(v[12]))
        case (Some(turn), Some(status), Some(mode), Some(difficulty)) =>
          Some(State(v[..9], turn, status, mode, difficulty))
        case _ => None
  }

  /** A successful decode takes the nine cells from the first nine tokens,
      in row-major order, and turn, status, mode and difficulty from the
      next four, read as ordinals. */
  lemma DecodedTokens(text: string)
    requires Decode(text).Some?
    ensures var toks := Tokens(text); var s := Decode(text).value;
      && |toks| >= 13
      && (forall k :: 0 <= k < 9 ==> ParseInt(toks[k]) == Some(s.grid[k]))
      && ParseInt(toks[9]).Some? && PlayerOf(ParseInt(toks[9]).value) == Some(s.activeTurn)
      && ParseInt(toks[10]).Some? && GameStatusOf(ParseInt(toks[10]).value) == Some(s.status)
      && ParseInt(toks[11]).Some? && GameModeOf(ParseInt(toks[11]).value) == Some(s.mode)
      && ParseInt(toks[12]).Some? && DifficultyOf(ParseInt(toks[12]).value) == Some(s.difficulty)
  {
    var toks := Tokens(text);
    var prefix := toks[..13];
    assert forall k :: 0 <= k < 13 ==> prefix[k] == toks[k];
  }

  /** Parsing the texts of some ints gives back those ints. */
  lemma {:induction false} ParseAllTexts(toks: seq<string>, vals: seq<int>)
    requires |toks| == |vals| && forall i :: 0 <= i < |toks| ==> toks[i] == IntText(vals[i])
    ensures ParseAll(toks) == Some(vals)
    decreases |toks|
  {
    if toks != [] {
      IntTextRoundTrip(vals[0]);
      ParseAllTexts(toks[1..], vals[1..]);
      assert [vals[0]] + vals[1..] == vals;
    }
  }

  /** Decoding a snapshot gives back every field of the state it was made
      from. */
  lemma DecodeEncode(s: State)
    ensures Decode(Encode(s)) == Some(s)
  {
    EncodeLayout(s);
    var toks := Tokens(Encode(s));
    var vals := s.grid + [s.activeTurn.Ordinal(), s.status.Ordinal(), s.mode.Ordinal(), s.difficulty.Ordinal()];
    assert ParseAll(toks[..13]) == Some(vals) by {
      assert toks[..13] == toks;
      forall i | 0 <= i < 13
        ensures toks[i] == IntText(vals[i])
      {
        if i < 9 {
          assert toks[i] == CellTexts(s.grid)[i];
        }
      }
      ParseAllTexts(toks, vals);
    }
    assert vals[..9] == s.grid;
    OrdinalsRoundTrip(s.activeTurn, s.status, s.mode, s.difficulty);
  }
}
