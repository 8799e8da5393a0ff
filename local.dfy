/** The two-player game on one terminal (main.go). Its package-level
    variables become the fields of one `Game` object; each call of
    `ReadString('\n')` on standard input is one `StdinRead`. */
module LocalGame {
  import opened Rules
  import Board

  /** What one `reader.ReadString('\n')` yields: the text read (with its
      newline), or an error such as end of input. */
  datatype StdinRead = Got(text: string) | ReadError

  /** The local game's package variables as one value. */
  datatype LocalState = LocalState(cells: Grid, player: Cell, gameOver: bool, winner: Cell, numFilled: int)

  /** The answer `playTurn` gives to a read: a failed read, or the checks
      of the trimmed line in main.go's order. */
  function Answer(st: LocalState, read: StdinRead): Reply {
    match read
    case ReadError => ReadFailed
    case Got(text) => MoveReply(st.cells, TrimSpace(text))
  }

  /** `playTurn`: only an accepted line writes the mark and counts the cell. */
  function PlayStep(st: LocalState, read: StdinRead): LocalState {
    if Answer(st, read) != Accepted then st
    else
      match ParseMove(TrimSpace(read.text))
      case At(r, c) => st.(cells := Place(st.cells, r, c, st.player), numFilled := st.numFilled + 1)
      case _ => st
  }

  /** `checkGameOver`: a line for the current mark wins, otherwise 9 filled
      cells is a draw, otherwise the mark switches. */
  function GameOverStep(st: LocalState): LocalState {
    if Wins(st.cells, st.player) then st.(gameOver := true, winner := st.player)
    else if st.numFilled == 9 then st.(gameOver := true)
    else st.(player := Rules.SwitchPlayer(st.player))
  }

  /** The game after the loop in `main` has run over `inputs`, stopping
      once the game is over. */
  function Play(st: LocalState, inputs: seq<StdinRead>): LocalState
    decreases |inputs|
  {
    if inputs == [] || st.gameOver then st
    else Play(GameOverStep(PlayStep(st, inputs[0])), inputs[1..])
  }

  /** How many reads that loop consumes. */
  function Consumed(st: LocalState, inputs: seq<StdinRead>): nat
    decreases |inputs|
  {
    if inputs == [] || st.gameOver then 0
    else 1 + Consumed(GameOverStep(PlayStep(st, inputs[0])), inputs[1..])
  }

  /** The loop reads every input unless the game ends first. */
  lemma {:induction false} PlayStops(st: LocalState, inputs: seq<StdinRead>)
    ensures Consumed(st, inputs) <= |inputs|
    ensures Consumed(st, inputs) < |inputs| ==> Play(st, inputs).gameOver
    decreases |inputs|
  {
    if inputs != [] && !st.gameOver {
      PlayStops(GameOverStep(PlayStep(st, inputs[0])), inputs[1..]);
    }
  }

  /** A read after which the mover has a line (an accepted move that
      completes one) ends the game with the mover as winner; the later
      reads are never made. */
  lemma WinningReadEnds(st: LocalState, read: StdinRead, rest: seq<StdinRead>)
    requires !st.gameOver
    requires Wins(PlayStep(st, read).cells, st.player)
    ensures Play(st, [read] + rest).gameOver && Play(st, [read] + rest).winner == st.player
    ensures Play(st, [read] + rest).cells == PlayStep(st, read).cells
    ensures Consumed(st, [read] + rest) == 1
  {
    var p := PlayStep(st, read);
    assert p.player == st.player && !p.gameOver;
    var next := GameOverStep(p);
    assert next.gameOver && next.winner == st.player && next.cells == p.cells;
    assert ([read] + rest)[0] == read && ([read] + rest)[1..] == rest;
  }

  class Game {
    const board: array2<Cell>
    var player: Cell
    var gameOver: bool
    var winner: Cell
    var numFilled: int

    /** The state every operation keeps. */
    ghost predicate Valid()
      reads this, board
    {
      Board.Square(board) &&
      numFilled == CountFilled(Board.Snapshot(board)) &&
      IsMark(player)
    }

    ghost function Cells(): Grid
      reads this, board
      requires Board.Square(board)
    {
      Board.Snapshot(board)
    }

    ghost function State(): LocalState
      reads this, board
      requires Board.Square(board)
    {
      LocalState(Cells(), player, gameOver, winner, numFilled)
    }

    /** While the loop `for !gameOver` keeps going: no winner, no line for
        either mark, and an empty cell left. */
    ghost predicate InPlay()
      reads this, board
      requires Valid()
    {
      !gameOver && winner == Empty && !Wins(Cells(), X) && !Wins(Cells(), O) && numFilled < 9
    }

    /** Once the loop stops: a winner holds a line and the other mark does
        not; no winner means a full board without any line. */
    ghost predicate Decided()
      reads this, board
      requires Valid()
    {
      gameOver &&
      (winner != Empty ==> Wins(Cells(), winner) && !Wins(Cells(), Rules.SwitchPlayer(winner))) &&
      (winner == Empty ==> !Wins(Cells(), X) && !Wins(Cells(), O) && numFilled == 9)
    }

    /** The initial values of the package variables. */
    constructor ()
      ensures Valid() && InPlay()
      ensures fresh(board) && Cells() == EmptyGrid
      ensures player == X && !gameOver && winner == Empty && numFilled == 0
    {
      board := new Cell[3, 3]((i, j) => Empty);
      player := X;
      gameOver := false;
      winner := Empty;
      numFilled := 0;
      new;
      assert Cells() == EmptyGrid;
      EmptyGridFacts();
    }

    /** The answer `playTurn` gives to a read: a failed read, or the
        checks of the trimmed line in main.go's order. */
    ghost function ReplyTo(read: StdinRead): Reply
      reads this, board
      requires Valid()
    {
      Answer(State(), read)
    }

    /** `playTurn`: a failed read returns at once; otherwise the line is
        trimmed, split on spaces and checked like the server's input, and
        only a legal move writes the mark and counts the cell. */
    method PlayTurn(read: StdinRead) returns (reply: Reply)
      requires Valid()
      modifies board, this
      ensures Valid()
      ensures reply == old(ReplyTo(read))
      ensures player == old(player) && gameOver == old(gameOver) && winner == old(winner)
      ensures reply != Accepted ==> Cells() == old(Cells()) && numFilled == old(numFilled)
      ensures reply == Accepted ==>
        var move := ParseMove(TrimSpace(read.text));
        read.Got? && move.At? && old(Cells())[move.row][move.col] == Empty &&
        Cells() == Place(old(Cells()), move.row, move.col, player) &&
        numFilled == old(numFilled) + 1
      ensures State() == PlayStep(old(State()), read)
    {
      if read.ReadError? {
        return ReadFailed;
      }
      var input := TrimSpace(read.text);
      ghost var before := Cells();
      reply := Board.TryMove(board, input, player);
      if reply == Accepted {
        var move := ParseMove(input);
        PlaceCounts(before, move.row, move.col, player, player);
        numFilled := numFilled + 1;
      }
    }

    /** `checkGameOver`: a line for the current mark wins first; otherwise a
        full count (9) is a draw; otherwise `switchPlayer` passes the turn. */
    method CheckGameOver()
      requires Valid()
      modifies this
      ensures Valid()
      ensures numFilled == old(numFilled)
      ensures Wins(Cells(), old(player)) ==>
        gameOver && winner == old(player) && player == old(player)
      ensures !Wins(Cells(), old(player)) && numFilled == 9 ==>
        gameOver && winner == old(winner) && player == old(player)
      ensures !Wins(Cells(), old(player)) && numFilled != 9 ==>
        gameOver == old(gameOver) && winner == old(winner) && player == Rules.SwitchPlayer(old(player))
      ensures State() == GameOverStep(old(State()))
    {
      var won := Board.CheckWin(board, player);
      if won {
        gameOver := true;
        winner := player;
        return;
      }
      if numFilled == 9 {
        gameOver := true;
        return;
      }
      player := Rules.SwitchPlayer(player);
    }

    /** `printBoard`: the text its prints add up to. */
    method PrintBoard() returns (out: string)
      requires Valid()
      ensures out == BoardLines(Cells())
    {
      ghost var g := Cells();
      Board.SnapshotAt(board);
      out := Header;
      for i := 0 to 3
        invariant out == RowsFrom(g, i)
      {
        out := out + Digit(i) + " ";
        ghost var lineStart := out;
        for j := 0 to 3
          invariant out == CellsFrom(lineStart, g[i], j)
        {
          if j != 0 {
            out := out + "|";
          }
          out := out + CellText(board[i, j]);
        }
        out := out + "\n";
        if i != 2 {
          out := out + Separator;
        }
      }
      RowsFromAll(g);
    }

    /** One pass of the loop in `main`: `playTurn` then `checkGameOver`.
        A rejected or failed read leaves the board alone but still passes
        the turn to the other mark. */
    method Turn(read: StdinRead) returns (reply: Reply)
      requires Valid() && InPlay()
      modifies board, this
      ensures Valid()
      ensures Extends(old(Cells()), Cells())
      ensures !gameOver ==> InPlay()
      ensures gameOver ==> Decided()
      ensures reply == old(ReplyTo(read))
      ensures reply != Accepted ==>
        Cells() == old(Cells()) && !gameOver && player == Rules.SwitchPlayer(old(player))
      ensures reply == Accepted ==>
        var move := ParseMove(TrimSpace(read.text));
        read.Got? && move.At? &&
        Cells() == Place(old(Cells()), move.row, move.col, old(player)) &&
        (Wins(Cells(), old(player)) ==> gameOver && winner == old(player)) &&
        (!Wins(Cells(), old(player)) ==> (gameOver <==> numFilled == 9) && winner == Empty) &&
        (!gameOver ==> player == Rules.SwitchPlayer(old(player))) &&
        (gameOver ==> player == old(player))
      ensures State() == GameOverStep(PlayStep(old(State()), read))
    {
      ghost var before := Cells();
      ghost var mover := player;
      reply := PlayTurn(read);
      if reply == Accepted {
        var move := ParseMove(TrimSpace(read.text));
        PlaceKeepsOthersLines(before, move.row, move.col, mover, Rules.SwitchPlayer(mover));
        assert Extends(before, Cells());
        assert !Wins(Cells(), Rules.SwitchPlayer(mover));
      } else {
        assert Cells() == before && !Wins(Cells(), mover) && numFilled < 9;
      }
      CheckGameOver();
    }

    /** The loop `for !gameOver { playTurn(); checkGameOver() }` over the
        reads standard input yields (`inputs`), stopping early once the game is over. */
    method Run(inputs: seq<StdinRead>) returns (turns: nat)
      requires Valid() && InPlay()
      modifies board, this
      ensures Valid()
      ensures Extends(old(Cells()), Cells())
      ensures turns <= |inputs|
      ensures gameOver ==> Decided()
      ensures !gameOver ==> InPlay() && turns == |inputs|
      ensures State() == Play(old(State()), inputs) && turns == Consumed(old(State()), inputs)
    {
      turns := 0;
      while turns < |inputs| && !gameOver
        invariant Valid() && turns <= |inputs|
        invariant !gameOver ==> InPlay()
        invariant gameOver ==> Decided()
        invariant Extends(old(Cells()), Cells())
        invariant Play(State(), inputs[turns..]) == Play(old(State()), inputs)
        invariant turns + Consumed(State(), inputs[turns..]) == Consumed(old(State()), inputs)
      {
        ghost var before := Cells();
        assert inputs[turns..][0] == inputs[turns] && inputs[turns..][1..] == inputs[turns + 1..];
        var _ := Turn(inputs[turns]);
        ExtendsTrans(old(Cells()), before, Cells());
        turns := turns + 1;
      }
      assert turns == |inputs| ==> inputs[turns..] == [];
    }
  }

  /** A typed line "r c" and its newline names cell (r, c). */
  lemma TypedMove(r: Coord, c: Coord, line: string)
    requires line == Digit(r) + " " + Digit(c) + "\n"
    ensures ParseMove(TrimSpace(line)) == At(r, c)
  {
    var core := Digit(r) + " " + Digit(c);
    assert line == [] + core + "\n";
    TrimAround([], core, "\n");
    ParseMoveExact(core, r, c);
  }

  /** A typed word without spaces, such as "oops", and its newline is one
      token, so the token-count check rejects it. */
  lemma TypedWord(word: string)
    requires word != [] && !IsSpace(word[0]) && !IsSpace(word[|word| - 1]) && ' ' !in word
    ensures ParseMove(TrimSpace(word + "\n")) == Malformed
  {
    assert word + "\n" == [] + word + "\n";
    TrimAround([], word, "\n");
    SplitNone(word, ' ');
  }

  lemma NoRowYet()
    ensures !Wins(Place(EmptyGrid, 0, 0, X), X)
    ensures Place(EmptyGrid, 0, 0, X)[0][1] == Empty
    ensures !Wins(Place(Place(EmptyGrid, 0, 0, X), 0, 1, X), X)
    ensures CountFilled(Place(EmptyGrid, 0, 0, X)) == 1
    ensures CountFilled(Place(Place(EmptyGrid, 0, 0, X), 0, 1, X)) == 2
  {
    EmptyGridFacts();
    PlaceCounts(EmptyGrid, 0, 0, X, X);
    PlaceCounts(Place(EmptyGrid, 0, 0, X), 0, 1, X, X);
    WinsCases(Place(EmptyGrid, 0, 0, X), X);
    WinsCases(Place(Place(EmptyGrid, 0, 0, X), 0, 1, X), X);
  }

  /** A mistyped line at O's prompt (any line the token-count check
      rejects, such as "oops") hands the turn back to X, who then places a
      second mark in a row: X types "0 0", O the bad line, X "0 1". */
  method SkippedTurn(bad: string) returns (g: Game)
    requires ParseMove(TrimSpace(bad)) == Malformed
    ensures g.Valid() && !g.gameOver && g.player == O
    ensures g.Cells() == Place(Place(EmptyGrid, 0, 0, X), 0, 1, X)
  {
    var first := Digit(0) + " " + Digit(0) + "\n";
    var third := Digit(0) + " " + Digit(1) + "\n";
    TypedMove(0, 0, first);
    TypedMove(0, 1, third);
    NoRowYet();
    ghost var one := Place(EmptyGrid, 0, 0, X);
    g := new Game();
    var r1 := g.Turn(Got(first));
    assert r1 == Accepted;
    assert g.Cells() == one;
    assert !g.gameOver && g.player == O;
    var r2 := g.Turn(Got(bad));
    assert r2 == WrongTokenCount;
    assert g.Cells() == one && g.player == X;
    var r3 := g.Turn(Got(third));
    assert r3 == Accepted;
  }
}
