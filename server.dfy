/** The networked server (server.go). Its module-level variables become the
    fields of one `Server` object; each inbound line or hang-up of a player
    connection is one event, handled one at a time. */
module GameServer {
  import opened Rules
  import Board

  /** A player connection, known only by its identity. */
  type Conn = int

  predicate Distinct(s: seq<Conn>) {
    forall i, j | 0 <= i < j < |s| :: s[i] != s[j]
  }

  /** The player list without its first entry equal to `c`. */
  function RemoveFirst(s: seq<Conn>, c: Conn): (r: seq<Conn>)
    ensures c !in s ==> r == s
    ensures c in s ==> |r| == |s| - 1
    ensures multiset(r) == multiset(s) - multiset{c}
  {
    if s == [] then []
    else
      assert s == [s[0]] + s[1..];
      if s[0] == c then s[1..] else [s[0]] + RemoveFirst(s[1..], c)
  }

  /** Removing the first `c` is the splice at the first index holding `c`;
      the other entries keep their order. */
  lemma {:induction false} RemoveFirstAt(s: seq<Conn>, c: Conn, i: nat)
    requires i < |s| && s[i] == c && c !in s[..i]
    ensures RemoveFirst(s, c) == s[..i] + s[i + 1..]
  {
    if i > 0 {
      assert s[0] != c by { assert s[0] == s[..i][0]; }
      assert s[1..][..i - 1] == s[..i][1..];
      RemoveFirstAt(s[1..], c, i - 1);
      assert s[..i] == [s[0]] + s[1..][..i - 1];
      assert s[i + 1..] == s[1..][i..];
    }
  }

  /** Splicing out one entry of a list without repetitions leaves a list
      without repetitions that no longer holds that entry. */
  lemma SpliceDistinct(s: seq<Conn>, i: nat)
    requires i < |s| && Distinct(s)
    ensures Distinct(s[..i] + s[i + 1..]) && s[i] !in s[..i] + s[i + 1..]
  {
    var r := s[..i] + s[i + 1..];
    forall a, b | 0 <= a < b < |r| ensures r[a] != r[b] {
      var a', b' := if a < i then a else a + 1, if b < i then b else b + 1;
      assert r[a] == s[a'] && r[b] == s[b'];
    }
    forall a | 0 <= a < |r| ensures r[a] != s[i] {
      assert r[a] == s[if a < i then a else a + 1];
    }
  }

  /** Something a player connection delivers: a line of text, or the end of
      its stream (a read error, a closed connection, a failed write). */
  datatype Event = Sent(from: Conn, text: string) | Hangup(from: Conn)

  /** Where the session loop stands once events stop or the game ends:
      still blocked waiting for a move, finished with the announced
      winner (Empty, server.go's "", is announced as a draw), or stopped by an index panic. */
  datatype SessionEnd = Waiting | Over(winner: Cell) | Crashed

  /** What a connection handler did with an event: removed its connection,
      or passed the line to `handleInput` and got this answer. */
  datatype Received = Removed | Answered(reply: Reply)

  /** The server's package variables as one value. */
  datatype ServerState = ServerState(
    cells: Grid, players: seq<Conn>, seat: int, player: Cell,
    gameOver: bool, winner: Cell, numFilled: int)

  /** The answer `handleInput` gives to `input` from `conn`: the index
      panic, the wrong sender, then the checks of the line. */
  function Answer(st: ServerState, conn: Conn, input: string): Reply {
    if st.seat < 0 || st.seat >= |st.players| then IndexOutOfRange
    else if conn != st.players[st.seat] then NotYourTurn
    else MoveReply(st.cells, input)
  }

  /** `handleInput` on `input` from `conn`: only an accepted line writes
      the mark and counts the cell. */
  function InputStep(st: ServerState, input: string, conn: Conn): (ServerState, Reply) {
    var reply := Answer(st, conn, input);
    if reply != Accepted then (st, reply)
    else
      match ParseMove(input)
      case At(r, c) => (st.(cells := Place(st.cells, r, c, st.player), numFilled := st.numFilled + 1), Accepted)
      case _ => (st, reply)
  }

  /** `removePlayer`: the first entry `conn` leaves the list, and fewer
      than two players left ends the game. */
  function RemoveStep(st: ServerState, conn: Conn): ServerState {
    var rest := RemoveFirst(st.players, conn);
    st.(players := rest, gameOver := st.gameOver || (conn in st.players && |rest| < 2))
  }

  /** What `handlePlayer` does with one event: a hang-up or "quit" runs
      `removePlayer`; any other line runs `handleInput`. */
  function EventStep(st: ServerState, ev: Event): (ServerState, Received) {
    if ev.Hangup? || ev.text == "quit" then (RemoveStep(st, ev.from), Removed)
    else
      var step := InputStep(st, ev.text, ev.from);
      (step.0, Answered(step.1))
  }

  /** `checkGameOver` and the loop test that follows it. */
  function AfterStep(st: ServerState): (ServerState, SessionEnd) {
    var after :=
      if Wins(st.cells, st.player) then st.(gameOver := true, winner := st.player)
      else if st.numFilled == 9 then st.(gameOver := true)
      else st.(seat := (st.seat + 1) % 2, player := Rules.SwitchPlayer(st.player));
    (after, if after.gameOver then Over(after.winner) else Waiting)
  }

  /** The turn loop fed by `events` in order: an index panic stops it, and
      an accepted move is followed by `checkGameOver` and the loop test. */
  function TurnStep(st: ServerState, ev: Event): (ServerState, SessionEnd) {
    var step := EventStep(st, ev);
    if step.1 == Answered(IndexOutOfRange) then (step.0, Crashed)
    else if step.1 == Answered(Accepted) then AfterStep(step.0)
    else (step.0, Waiting)
  }

  function Session(st: ServerState, events: seq<Event>): (ServerState, SessionEnd)
    decreases |events|
  {
    if events == [] then (st, Waiting)
    else
      var next := TurnStep(st, events[0]);
      if next.1.Waiting? then Session(next.0, events[1..]) else next
  }

  /** An accepted move that completes a line for the mover ends the session
      at once with the mover as winner; the later events are never read. */
  lemma WinningMoveEnds(st: ServerState, ev: Event, rest: seq<Event>)
    requires EventStep(st, ev).1 == Answered(Accepted)
    requires Wins(EventStep(st, ev).0.cells, st.player)
    ensures Session(st, [ev] + rest).1 == Over(st.player)
    ensures Session(st, [ev] + rest).0 == EventStep(st, ev).0.(gameOver := true, winner := st.player)
  {
    assert ([ev] + rest)[0] == ev;
  }

  /** Any event other than an accepted move or the index panic leaves the
      loop waiting, and the session goes on from the new state. */
  lemma OtherEventContinues(st: ServerState, ev: Event, rest: seq<Event>)
    requires EventStep(st, ev).1 != Answered(Accepted)
    requires EventStep(st, ev).1 != Answered(IndexOutOfRange)
    ensures Session(st, [ev] + rest) == Session(EventStep(st, ev).0, rest)
  {
    assert ([ev] + rest)[0] == ev && ([ev] + rest)[1..] == rest;
  }

  /** The loop from state `st`: a game already over ends at once. */
  function RunFrom(st: ServerState, events: seq<Event>): (ServerState, SessionEnd) {
    if st.gameOver then (st, Over(st.winner)) else Session(st, events)
  }

  class Server {
    const board: array2<Cell>
    var players: seq<Conn>
    var currentPlayerIndex: int
    var player: Cell
    var gameOver: bool
    var winner: Cell
    var numFilled: int

    /** The state every operation keeps. */
    ghost predicate Valid()
      reads this, board
    {
      Board.Square(board) &&
      numFilled == CountFilled(Board.Snapshot(board)) &&
      (currentPlayerIndex == 0 || currentPlayerIndex == 1) &&
      player == (if currentPlayerIndex == 0 then X else O) &&
      |players| <= 2 && Distinct(players)
    }

    ghost function Cells(): Grid
      reads this, board
      requires Board.Square(board)
    {
      Board.Snapshot(board)
    }

    ghost function State(): ServerState
      reads this, board
      requires Board.Square(board)
    {
      ServerState(Cells(), players, currentPlayerIndex, player, gameOver, winner, numFilled)
    }

    /** While no winner is known: no line is complete, the marks alternate
        from X, and only a lost player can have ended the game early. */
    ghost predicate InPlay()
      reads this, board
      requires Valid()
    {
      winner == Empty && !Wins(Cells(), X) && !Wins(Cells(), O) &&
      Balanced(Cells(), player) && (gameOver ==> |players| < 2)
    }

    /** The state once the game is over: a winner holds a line and the other
        mark does not; no winner means no line at all, and either a full
        board or a lost player. */
    ghost predicate Decided()
      reads this, board
      requires Valid()
    {
      gameOver &&
      (winner != Empty ==> Wins(Cells(), winner) && !Wins(Cells(), Rules.SwitchPlayer(winner))) &&
      (winner == Empty ==> !Wins(Cells(), X) && !Wins(Cells(), O) && (numFilled == 9 || |players| < 2))
    }

    /** The state once the first two connections have joined, in join order. */
    constructor (first: Conn, second: Conn)
      requires first != second
      ensures Valid() && InPlay()
      ensures fresh(board) && Cells() == EmptyGrid
      ensures players == [first, second] && currentPlayerIndex == 0 && player == X
      ensures !gameOver && winner == Empty && numFilled == 0
    {
      board := new Cell[3, 3]((i, j) => Empty);
      players := [first, second];
      currentPlayerIndex := 0;
      player := X;
      gameOver := false;
      winner := Empty;
      numFilled := 0;
      new;
      assert Cells() == EmptyGrid;
      EmptyGridFacts();
    }

    /** The answer `handleInput` gives to `input` from `conn`. */
    ghost function ReplyTo(conn: Conn, input: string): Reply
      reads this, board
      requires Valid()
    {
      Answer(State(), conn, input)
    }

    /** `handleInput`: checks the sender is on turn, the line holds two
        tokens, both tokens are coordinates and the cell is empty; only then
        writes the mark and counts the cell. `IndexOutOfRange` stands for the
        runtime panic of `players[currentPlayerIndex]` after a removal. */
    method HandleInput(input: string, conn: Conn) returns (reply: Reply)
      requires Valid()
      modifies board, this
      ensures Valid()
      ensures reply == old(ReplyTo(conn, input))
      ensures reply == IndexOutOfRange <==> currentPlayerIndex >= |players|
      ensures players == old(players) && currentPlayerIndex == old(currentPlayerIndex)
      ensures player == old(player) && gameOver == old(gameOver) && winner == old(winner)
      ensures reply != Accepted ==> Cells() == old(Cells()) && numFilled == old(numFilled)
      ensures reply == Accepted ==>
        var move := ParseMove(input);
        move.At? && old(Cells())[move.row][move.col] == Empty &&
        Cells() == Place(old(Cells()), move.row, move.col, player) &&
        numFilled == old(numFilled) + 1
      ensures (State(), reply) == InputStep(old(State()), input, conn)
    {
      if currentPlayerIndex >= |players| {
        return IndexOutOfRange;
      }
      if conn != players[currentPlayerIndex] {
        return NotYourTurn;
      }
      ghost var before := Cells();
      reply := Board.TryMove(board, input, player);
      if reply == Accepted {
        var move := ParseMove(input);
        PlaceCounts(before, move.row, move.col, player, player);
        numFilled := numFilled + 1;
      }
    }

    /** `switchPlayer`: the seat index and the mark flip together. */
    method SwitchPlayer()
      requires Valid()
      modifies this
      ensures Valid()
      ensures currentPlayerIndex == NextSeat(old(currentPlayerIndex))
      ensures player == Rules.SwitchPlayer(old(player))
      ensures players == old(players) && gameOver == old(gameOver) && winner == old(winner)
      ensures numFilled == old(numFilled)
    {
      currentPlayerIndex := (currentPlayerIndex + 1) % 2;
      if player == X {
        player := O;
      } else {
        player := X;
      }
    }

    /** `checkGameOver`: a line for the mark that just moved wins first;
        otherwise a full count (9) is a draw; otherwise the turn passes. */
    method CheckGameOver()
      requires Valid()
      modifies this
      ensures Valid()
      ensures players == old(players) && numFilled == old(numFilled)
      ensures Wins(Cells(), old(player)) ==>
        gameOver && winner == old(player) &&
        player == old(player) && currentPlayerIndex == old(currentPlayerIndex)
      ensures !Wins(Cells(), old(player)) && numFilled == 9 ==>
        gameOver && winner == old(winner) &&
        player == old(player) && currentPlayerIndex == old(currentPlayerIndex)
      ensures !Wins(Cells(), old(player)) && numFilled != 9 ==>
        gameOver == old(gameOver) && winner == old(winner) &&
        player == Rules.SwitchPlayer(old(player)) &&
        currentPlayerIndex == NextSeat(old(currentPlayerIndex))
    {
      var won := Board.CheckWin(board, player);
      if won {
        gameOver := true;
        winner := player;
        return;
      }
      if numFilled == 9 {
        gameOver := true;
        return;
      }
      SwitchPlayer();
    }

    /** `removePlayer`: drops the first entry equal to `conn`, keeping the
        others in order, and ends the game when fewer than two remain; an
        unknown connection changes nothing. */
    method RemovePlayer(conn: Conn)
      requires Valid()
      modifies this
      ensures Valid()
      ensures players == RemoveFirst(old(players), conn) && conn !in players
      ensures gameOver == (old(gameOver) || (conn in old(players) && |players| < 2))
      ensures currentPlayerIndex == old(currentPlayerIndex) && player == old(player)
      ensures winner == old(winner) && numFilled == old(numFilled)
      ensures State() == RemoveStep(old(State()), conn)
    {
      var i := 0;
      while i < |players|
        invariant 0 <= i <= |players|
        invariant players == old(players) && gameOver == old(gameOver)
        invariant conn !in players[..i]
      {
        if players[i] == conn {
          RemoveFirstAt(players, conn, i);
          SpliceDistinct(players, i);
          players := players[..i] + players[i + 1..];
          if |players| < 2 {
            gameOver := true;
          }
          // server.go breaks out of the loop here; nothing follows it
          return;
        }
        assert players[..i + 1] == players[..i] + [players[i]];
        i := i + 1;
      }
      assert players[..i] == players;
    }

    /** The board text `sendBoardToAll` builds before sending it. */
    method BoardString() returns (boardStr: string)
      requires Valid()
      ensures boardStr == BoardMessage(Cells())
    {
      ghost var g := Cells();
      Board.SnapshotAt(board);
      boardStr := Header;
      for i := 0 to 3
        invariant boardStr == RowsFrom(g, i)
      {
        boardStr := boardStr + Digit(i) + " ";
        ghost var lineStart := boardStr;
        for j := 0 to 3
          invariant boardStr == CellsFrom(lineStart, g[i], j)
        {
          if j != 0 {
            boardStr := boardStr + "|";
          }
          boardStr := boardStr + CellText(board[i, j]);
        }
        boardStr := boardStr + "\n";
        if i != 2 {
          boardStr := boardStr + Separator;
        }
      }
      RowsFromAll(g);
      boardStr := boardStr + "\n";
    }

    /** Between an accepted move and `checkGameOver`: no winner yet, the
        mover's opponent has no line, and the marks are in turn for the
        opponent. */
    ghost predicate Moved()
      reads this, board
      requires Valid()
    {
      winner == Empty && !Wins(Cells(), Rules.SwitchPlayer(player)) &&
      Balanced(Cells(), Rules.SwitchPlayer(player)) && (gameOver ==> |players| < 2)
    }

    /** `handlePlayer` on one event of its connection: a hang-up (the end
        of the scanner loop) or the line "quit" removes the connection;
        any other line goes to `handleInput`. */
    method HandleEvent(ev: Event) returns (r: Received)
      requires Valid() && InPlay()
      modifies board, this
      ensures Valid()
      ensures Extends(old(Cells()), Cells())
      ensures r != Answered(Accepted) ==> InPlay()
      ensures r == Answered(Accepted) ==> Moved()
      ensures ev.Hangup? || ev.text == "quit" ==>
        r == Removed && Cells() == old(Cells()) &&
        players == RemoveFirst(old(players), ev.from) &&
        gameOver == (old(gameOver) || (ev.from in old(players) && |players| < 2)) &&
        player == old(player) && currentPlayerIndex == old(currentPlayerIndex)
      ensures ev.Sent? && ev.text != "quit" ==>
        r == Answered(old(ReplyTo(ev.from, ev.text))) &&
        players == old(players) && currentPlayerIndex == old(currentPlayerIndex) &&
        player == old(player) && gameOver == old(gameOver)
      ensures r != Answered(Accepted) ==> Cells() == old(Cells()) && numFilled == old(numFilled)
      ensures r == Answered(Accepted) ==>
        var move := ParseMove(ev.text);
        move.At? && Cells() == Place(old(Cells()), move.row, move.col, player) &&
        numFilled == old(numFilled) + 1
      ensures r == Answered(IndexOutOfRange) <==>
        ev.Sent? && ev.text != "quit" && currentPlayerIndex >= |players|
      ensures (State(), r) == EventStep(old(State()), ev)
    {
      if ev.Hangup? || ev.text == "quit" {
        RemovePlayer(ev.from);
        return Removed;
      }
      ghost var before := Cells();
      var reply := HandleInput(ev.text, ev.from);
      if reply == Accepted {
        var move := ParseMove(ev.text);
        MoveKeepsPlay(before, move.row, move.col, player);
      }
      r := Answered(reply);
    }

    /** One pass of the turn loop once a move has been made: `checkGameOver`,
        then the loop test on `gameOver`. */
    method AfterMove() returns (next: SessionEnd)
      requires Valid() && Moved()
      modifies this
      ensures Valid()
      ensures Cells() == old(Cells()) && players == old(players)
      ensures next.Waiting? ==> InPlay()
      ensures next.Over? ==> Decided() && next.winner == winner
      ensures !next.Crashed?
      ensures Wins(Cells(), old(player)) ==> next == Over(old(player))
      ensures Wins(Cells(), old(player)) ==>
        player == old(player) && currentPlayerIndex == old(currentPlayerIndex)
      ensures !Wins(Cells(), old(player)) && numFilled == 9 ==>
        next == Over(Empty) && player == old(player) && currentPlayerIndex == old(currentPlayerIndex)
      ensures !Wins(Cells(), old(player)) && numFilled != 9 ==>
        player == Rules.SwitchPlayer(old(player)) &&
        currentPlayerIndex == NextSeat(old(currentPlayerIndex)) &&
        gameOver == old(gameOver) &&
        next == (if old(gameOver) then Over(Empty) else Waiting)
      ensures next.Waiting? ==> !gameOver
      ensures (State(), next) == AfterStep(old(State()))
    {
      CheckGameOver();
      if gameOver {
        next := Over(winner);
      } else {
        next := Waiting;
      }
    }

    /** One event of the turn loop: `handlePlayer` on it and, after an
        accepted move, `checkGameOver` and the loop test. */
    method Turn(ev: Event) returns (end: SessionEnd)
      requires Valid() && InPlay()
      modifies board, this
      ensures Valid()
      ensures Extends(old(Cells()), Cells())
      ensures end.Waiting? || end.Crashed? ==> InPlay()
      ensures end.Crashed? ==> currentPlayerIndex >= |players|
      ensures end.Over? ==> Decided() && end.winner == winner
      ensures (State(), end) == TurnStep(old(State()), ev)
    {
      var r := HandleEvent(ev);
      if r == Answered(IndexOutOfRange) {
        return Crashed;
      }
      if r == Answered(Accepted) {
        end := AfterMove();
      } else {
        end := Waiting;
      }
    }

    /** The turn loop `for !gameOver { playTurn(); checkGameOver() }` fed by
        the players' events in arrival order: it wakes after each accepted
        move, and stops when the game is over or a handler panics. */
    method Run(events: seq<Event>) returns (end: SessionEnd)
      requires Valid() && InPlay()
      modifies board, this
      ensures Valid()
      ensures Extends(old(Cells()), Cells())
      ensures end.Waiting? || end.Crashed? ==> InPlay()
      ensures end.Crashed? ==> currentPlayerIndex >= |players|
      ensures end.Over? ==> Decided() && end.winner == winner
      ensures (State(), end) == RunFrom(old(State()), events)
    {
      if gameOver {
        return Over(winner);
      }
      end := Waiting;
      var k := 0;
      while k < |events|
        invariant 0 <= k <= |events|
        invariant Valid() && InPlay() && end == Waiting
        invariant Extends(old(Cells()), Cells())
        invariant Session(State(), events[k..]) == Session(old(State()), events)
      {
        ghost var before := Cells();
        ghost var st := State();
        assert events[k..][0] == events[k] && events[k..][1..] == events[k + 1..];
        end := Turn(events[k]);
        ExtendsTrans(old(Cells()), before, Cells());
        if !end.Waiting? {
          assert Session(st, events[k..]) == (State(), end);
          return;
        }
        k := k + 1;
      }
      assert events[k..] == [];
    }
  }

  /** The boards of the two examples below: one mark is no line, and with
      it one cell is filled. */
  lemma OneMarkFacts(r: Coord, c: Coord)
    ensures !Wins(Place(EmptyGrid, r, c, X), X) && !Wins(Place(EmptyGrid, r, c, X), O)
    ensures CountFilled(Place(EmptyGrid, r, c, X)) == 1
  {
    EmptyGridFacts();
    PlaceCounts(EmptyGrid, r, c, X, X);
    WinsCases(Place(EmptyGrid, r, c, X), X);
    WinsCases(Place(EmptyGrid, r, c, X), O);
  }

  /** X's connection leaves before moving. The game is over at once, but
      the turn loop is still waiting: the remaining connection now sits at
      index 0, so its move is accepted with X's mark, and the loop then
      ends the game with no winner. */
  method LeaverExample() returns (s: Server, end: SessionEnd)
    ensures s.Valid() && s.players == [2] && end == Over(Empty)
    ensures s.Cells() == Place(EmptyGrid, 1, 1, X)
  {
    var line := Digit(1) + " " + Digit(1);
    ParseMoveExact(line, 1, 1);
    OneMarkFacts(1, 1);
    s := new Server(1, 2);
    var left := s.HandleEvent(Hangup(1));
    assert left == Removed && s.Cells() == EmptyGrid && s.numFilled == 0;
    assert s.players == [2] && s.gameOver && s.currentPlayerIndex == 0 && s.player == X;
    assert s.ReplyTo(2, line) == Accepted;
    var moved := s.HandleEvent(Sent(2, line));
    assert moved == Answered(Accepted);
    assert s.Cells() == Place(EmptyGrid, 1, 1, X) && s.numFilled == 1 && s.player == X;
    assert !Wins(s.Cells(), s.player) && s.gameOver;
    end := s.AfterMove();
  }

  /** X moves and then leaves. O is on turn at index 1 of a list that now
      holds one connection. */
  method MoveThenLeave() returns (s: Server)
    ensures fresh(s) && fresh(s.board)
    ensures s.Valid() && s.InPlay() && s.gameOver
    ensures s.players == [2] && s.currentPlayerIndex == 1
    ensures s.Cells() == Place(EmptyGrid, 0, 0, X)
  {
    var first := Digit(0) + " " + Digit(0);
    ParseMoveExact(first, 0, 0);
    OneMarkFacts(0, 0);
    s := new Server(1, 2);
    assert s.ReplyTo(1, first) == Accepted;
    var moved := s.HandleEvent(Sent(1, first));
    assert moved == Answered(Accepted);
    assert s.Cells() == Place(EmptyGrid, 0, 0, X) && s.numFilled == 1 && s.player == X;
    assert !Wins(s.Cells(), s.player) && !s.gameOver;
    var next := s.AfterMove();
    assert s.currentPlayerIndex == 1 && s.players == [1, 2];
    var left := s.HandleEvent(Hangup(1));
  }

  /** After `MoveThenLeave`, O's next line hits the index panic. */
  method CrashExample() returns (s: Server, r: Received)
    ensures s.Valid() && s.players == [2] && r == Answered(IndexOutOfRange)
    ensures s.Cells() == Place(EmptyGrid, 0, 0, X)
  {
    s := MoveThenLeave();
    var line := Digit(1) + " " + Digit(1);
    assert line != "quit";
    r := s.HandleEvent(Sent(2, line));
  }
}
