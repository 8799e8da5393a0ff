# Tic-tac-toe: networked server and local game, modelled in Dafny

The repository holds two Go programs. Both play tic-tac-toe on a 3x3 board of
strings (" " for an empty cell, "X" and "O" for the marks):

- `server.go` is the networked server. The first two TCP connections are
  players 1 and 2. A goroutine per connection reads input lines and hands
  them to `handleInput`. `handleInput` checks that the sender is on turn,
  that the line is two space-separated coordinates and that the cell is
  empty, then writes the mark and counts the cell. After that it is
  meant to broadcast the board and wake the turn loop, which calls
  `checkGameOver` after every move. As written, though, an accepted move
  deadlocks the server: `handleInput` still holds the mutex `mu`
  (server.go:102-103) when the broadcast reaches `sendMessageToAll`, and
  that function locks `mu` again (server.go:149). A Go `sync.Mutex` cannot
  be locked twice by its holder, so the handler blocks for good and
  `moveMade <- true` (server.go:130) is never reached. A player who sends
  "quit" or whose connection ends is removed, and the game is over once
  fewer than two players remain.
- `main.go` is the same game on one terminal. `main` alternates
  `playTurn` (read a line, trim it, check and apply it) and
  `checkGameOver`.

The model keeps each program's state in a class. `GameServer.Server`
holds the server's package variables and `LocalGame.Game` the local
game's. Each has the board as a 3x3 array and methods that update these
fields as the Go functions do. Each method is proved against
specification functions, which module `Rules` defines on board values
(`Grid`):

- `Wins`: one of the eight lines holds a mark.
- `CountFilled`: the number of cells that are not empty.
- `MoveReply`: the answer to an input line, with the checks in the
  Go code's order.
- `BoardLines`: the rendered board text.
- `Split`, `TrimSpace`: Go's `strings.Split` and `strings.TrimSpace`.

Module `Board` holds the operations both programs apply to the array: the
move check-and-write and `checkWin`.

Each program also has its package variables as one value
(`GameServer.ServerState`, `LocalGame.LocalState`), with a function for
each step on that value:

- server: `InputStep` (`handleInput`), `RemoveStep` (`removePlayer`),
  `EventStep` (`handlePlayer` on one event), `AfterStep` (`checkGameOver`
  and the loop test), `TurnStep` (one event of the loop, then
  `checkGameOver` after an accepted move), and `Session` / `RunFrom` (the turn loop over a
  sequence of events);
- local game: `PlayStep` (`playTurn`), `GameOverStep` (`checkGameOver`),
  and `Play` / `Consumed` (the loop in `main` over a sequence of reads).

Every method states that its new fields, and its result where it has one,
are that function of the old fields. So each `Run` is the fold of its
steps over the input.

The server is modelled as events, one at a time: a line from a connection,
or a connection's end (`GameServer.Event`). `HandleEvent` is one step of
`handlePlayer`. `AfterMove` is one pass of the turn loop after an accepted
move. `Run` feeds a sequence of events through them. Each class has:

- a `Valid` invariant. For `LocalGame.Game`, `numFilled` is the number of
  filled cells and the current player is a mark. `GameServer.Server` adds
  that the seat index is 0 or 1 and agrees with the mark, and that the
  player list has at most two entries and no repeats;
- an `InPlay` invariant for a game that is still running;
- a `Decided` property that holds when the loop stops: a winner owns a line
  and the other mark does not, or there is no line at all.

## Model

| member | source | states |
|---|---|---|
| Rules.ParseInput | server.go:180-191 | "0", "1", "2" map to 0, 1, 2 and every other string maps to -1 (when the result is not -1 the input is exactly that digit) |
| Rules.Split | server.go:110 | `strings.Split` always gives at least one piece, so `coords[0]` exists even for an empty line |
| Rules.SplitPieces | server.go:110 | `strings.Split` on one separator gives one more piece than there are separators, and no piece holds the separator |
| Rules.SplitJoin | server.go:110 | joining the pieces with the separator gives back the input, so splitting loses nothing |
| Rules.SplitTwo | server.go:110-111 | the split gives exactly the two tokens `a`, `b` iff the line is `a + " " + b` and neither token holds a space |
| Rules.ParseMoveExact | server.go:110-120 | split and parse name cell (r, c) iff the line is exactly the digit r, one space and the digit c |
| Rules.ParseMoveMalformed | server.go:110-114 | the token-count error happens iff the line does not hold exactly one space |
| Rules.MoveAccepted | server.go:110-125 | a line is accepted iff it is "r c" for an empty cell (r, c) |
| Rules.TrimLeftCut | main.go:62 | trimming the front cuts only white space and stops at the first other character |
| Rules.TrimRightCut | main.go:62 | trimming the back cuts only white space and stops at the last other character |
| Rules.TrimSpaceCut | main.go:62 | `strings.TrimSpace` keeps one stretch of the input and cuts only white space (`unicode.IsSpace`) before and after it; what it keeps neither starts nor ends with white space |
| Rules.TrimAround | main.go:62 | trimming white space around a core that does not start or end with it gives the core, e.g. the newline `ReadString` keeps is dropped |
| Rules.SwitchPlayer | main.go:131-136 | "X" gives "O", any other value gives "X", and the result is always a mark |
| Rules.SwitchPlayerInvolution | main.go:131-136 | on the two marks, switching twice is the identity and switching once changes the mark |
| Rules.NextSeat | server.go:228 | `(currentPlayerIndex + 1) % 2` sends seat 0 to 1 and seat 1 to 0 |
| Rules.Place | server.go:127 | writing a mark sets that cell and leaves the other eight unchanged |
| Rules.PlaceCounts | server.go:127-128 | writing a mark into an empty cell raises the filled count by exactly one, raises that mark's count by one and leaves the other mark's count alone, which is why `numFilled++` stays equal to the count |
| Rules.FullBoard | server.go:203 | a fill count of 9 means no empty cell is left, and the converse |
| Rules.CountBounds | server.go:203 | a count is 0 iff the value is absent, and equals the length iff every element is that value |
| Rules.PlaceKeepsOthersLines | server.go:197-201 | writing mark m never completes a line for any other value, so checking only the mover after its move misses no win |
| Rules.MoveKeepsPlay | server.go:127-128 | a legal move keeps every occupied cell, keeps the marks alternating, and gives the opponent no line |
| Rules.WinsCases | server.go:211-225 | a mark wins iff it holds one of the eight lines: three rows, three columns, two diagonals |
| Rules.LineCells | server.go:212-220 | line i is row i, line 3 + i is column i, and lines 6 and 7 are the two diagonals, cell by cell |
| Rules.EmptyGridFacts | server.go:14 | the starting board has no filled cell, no mark and no line |
| Rules.ExtendsTrans | server.go:122-127 | "no occupied cell ever changes" composes over a sequence of steps |
| Rules.RowsFromAll | server.go:160-173 | the text the two render loops build equals the layout: header, three rows, and a separator after rows 0 and 1 only |
| Rules.BoardLinesLayout | main.go:34-49 | the rendered board is 83 characters long, starts with the header line, and has each cell's character at a fixed offset |
| Rules.RenderRoundTrip | server.go:159-174 | every board can be read back from its rendering and from the broadcast text, so the rendering is injective |
| Board.Put | server.go:127 | the write changes exactly cell (row, col) of the array |
| Board.TryMove | server.go:110-128 | the answer is `MoveReply` of the board before the call; a rejected line leaves the board alone; an accepted one writes the mark into the named cell, which was empty |
| Board.CheckWin | server.go:211-225 | returns true iff `symbol` holds one of the eight lines of the array |
| GameServer.RemoveFirst | server.go:254-258 | an absent connection leaves the list unchanged; otherwise the list is one shorter and its multiset loses exactly one copy of that connection |
| GameServer.RemoveFirstAt | server.go:254-257 | removing is the splice `players[:i] + players[i+1:]` at the first index holding the connection, so the order is kept |
| GameServer.SpliceDistinct | server.go:257 | the splice keeps the list free of repeats and drops the removed connection |
| GameServer.Server.constructor | server.go:13-19 | after two distinct connections join: empty board, seat 0 with X to move, no winner, nothing filled, game in play |
| GameServer.Server.HandleInput | server.go:100-131 | the answer is `ReplyTo`; a line from the wrong connection, a malformed line, a bad number or a taken cell changes nothing; an accepted line writes the mover's mark into that empty cell and adds one to `numFilled`; an index past the player list is the panic; the new fields are `InputStep` of the old |
| GameServer.Server.SwitchPlayer | server.go:227-234 | the seat index and the mark flip together, and nothing else changes |
| GameServer.Server.CheckGameOver | server.go:193-209 | a line for the mover ends the game with that winner; otherwise a count of 9 ends it as a draw; otherwise the turn passes |
| GameServer.Server.RemovePlayer | server.go:250-267 | the list becomes `RemoveFirst`, the connection is gone, and the game is over iff it was already or a removal left fewer than two players; the new fields are `RemoveStep` of the old |
| GameServer.Server.BoardString | server.go:159-174 | the text built is `BoardMessage` of the board: `BoardLines` plus a trailing newline |
| GameServer.Server.HandleEvent | server.go:65-84 | a hang-up or "quit" removes the connection and changes no cell; any other line gets `handleInput`'s answer; the game stays in play unless a move was accepted; the new fields and the result are `EventStep` of the old fields |
| GameServer.Server.AfterMove | server.go:55-58 | after a move: the mover's line ends with that winner; otherwise a count of 9, or a game already over, ends as a draw; otherwise the mark and seat flip, and the loop waits, or ends as a draw if a departure already ended the game; on a win or a full board the mark and seat stay; the new fields and the result are `AfterStep` of the old |
| GameServer.Server.Turn | server.go:55-84 | one event of the loop: a panic only with the seat index past the list; an `Over` result is `Decided`; otherwise the game is still in play; occupied cells never change; the new fields and the result are `TurnStep` of the old |
| GameServer.Server.Run | server.go:55-59 | over any event sequence, occupied cells never change; a panic happens only with the seat index past the list; when the loop ends the result is `Decided`; the final fields and the result are `RunFrom` of the starting fields and the events, so every event is applied in order until the game ends or a handler panics |
| GameServer.LeaverExample | server.go:105-131 | after X's connection leaves, the move by O's connection still passes the turn check and is written as X; the loop then ends with no winner |
| GameServer.MoveThenLeave | server.go:250-267 | after X moves and X's connection leaves, the game is over, O's connection is the only entry and the seat index is 1 |
| GameServer.CrashExample | server.go:105 | after `MoveThenLeave`, O's next line indexes past the one-entry list |
| LocalGame.Game.constructor | main.go:10-16 | empty board, X to move, no winner, nothing filled |
| LocalGame.Game.PlayTurn | main.go:51-83 | a failed read changes nothing; otherwise the trimmed line gets `MoveReply`'s answer, and only an accepted one writes the mark and counts the cell; the new fields are `PlayStep` of the old |
| LocalGame.Game.CheckGameOver | main.go:98-111 | a line for the current mark wins; otherwise 9 filled cells is a draw; otherwise the mark switches; the new fields are `GameOverStep` of the old |
| LocalGame.Game.PrintBoard | main.go:34-49 | the printed text is `BoardLines`: no trailing blank line |
| LocalGame.Game.Turn | main.go:22-25 | a rejected or failed input leaves the board alone but still passes the turn; an accepted one places the mark, then wins, draws at 9, or passes the turn; on a win or a draw the mark stays; the new fields are `GameOverStep(PlayStep(..))` of the old |
| LocalGame.Game.Run | main.go:18-32 | over any sequence of reads the game is either still in play or `Decided`, and occupied cells never change; the final fields are `Play` of the starting fields and the reads, and the number of turns is `Consumed` |
| LocalGame.TypedMove | main.go:56-69 | a typed line "r c" followed by a newline names cell (r, c) |
| LocalGame.TypedWord | main.go:62-66 | a typed word without spaces, such as "oops", and its newline is one token, so the token-count check rejects it |
| GameServer.WinningMoveEnds | server.go:55-58 | an accepted move that gives the mover a line ends the session at once with the mover as winner, whatever events follow |
| GameServer.OtherEventContinues | server.go:55-84 | an event that is neither an accepted move nor the index panic leaves the loop waiting, and the session goes on from the state that event left |
| LocalGame.PlayStops | main.go:22-25 | the loop reads at most all the inputs, and it stops before the end only once the game is over |
| LocalGame.WinningReadEnds | main.go:22-103 | a read after which the mover has a line (an accepted move that completes one) ends the game after that one read, with the mover as winner |
| LocalGame.SkippedTurn | main.go:22-25 | the lines "0 0", any line the token-count check rejects ("oops"), and "0 1" leave X on (0, 0) and (0, 1) with O to move |

## Left out

- `client.go` is not part of this model. It only relays standard input and server output.
- Sockets are not modelled: the listener, `Accept` and its errors (server.go:27-40), closing connections, and any connection after the second. `GameServer.Server.constructor` starts from the two joined players. A connection is known only by an integer identity.
- Goroutines, the mutex `mu` and the channel `moveMade` are not modelled. Events are handled one at a time, in any order the caller chooses. The lock's contention and blocking sends are therefore not captured, and neither is the server's certain deadlock on every accepted move: `handleInput` calls `sendBoardToAll` while holding `mu` (server.go:102-103, 129), and `sendMessageToAll` locks `mu` again (server.go:149). The Go server therefore never gets past its first accepted move. Everything the model says after an accepted move is the sequential behaviour the code intends, not a path the Go server reaches: `GameServer.Server.AfterMove`, the `Over` results of `GameServer.Server.Run`, the end of `GameServer.LeaverExample` ("the loop then ends"), and `GameServer.MoveThenLeave` and `GameServer.CrashExample`.
- Messages and logging are left out: prompts, error texts, the board broadcast and the "Player %s wins!" / "It's a draw!" announcement. The local game's `printBoard` calls (main.go:20, 82) are left out too: `LocalGame.Game.PlayTurn` does not print the board after a move, and no member calls `LocalGame.Game.PrintBoard`, which only shows what text those calls produce. A reply is a `Reply` value, the result is a `SessionEnd`, and `Over(Empty)` stands for the draw announcement.
- Only one failed write removes its connection cleanly: the prompt to the player on turn in `playTurn` (server.go:135), which runs without the lock. The model shows that removal as a `Hangup` event for the connection. Every other write fails while `mu` is held: `handleInput`'s replies (server.go:106-123) and every broadcast through `sendMessageToAll` (server.go:149-156). `sendServerMessage` then calls `removePlayer`, which locks `mu` again (server.go:251) and blocks for good. That deadlock is not modelled.
- The server's `playTurn` (server.go:133-138) only waits. Its `players[currentPlayerIndex]` (server.go:134) is not modelled. When events are handled one at a time, as in the model, that index cannot go out of range. `playTurn` is reached only after the loop test at server.go:55 has read `gameOver` as false. In that order both players are then still present, because any removal that leaves fewer than two sets `gameOver` (server.go:260-261), and nothing clears it again. In Go, though, the loop reads `gameOver` without the lock (server.go:55). Another connection's "quit" can be handled between that test and server.go:134, for example while the turn message of server.go:56 is being sent. With `currentPlayerIndex == 1` and seat 0 leaving, `players[1]` then panics in the main goroutine. The index panic the model does capture is the one in `handleInput` (server.go:105), as the reply `IndexOutOfRange`.
- GameServer.Server.constructor: starts with two players and the game in play, so it assumes no departure before the second connection joins. In Go, a first connection that quits before the second one joins is removed and sets `gameOver` (server.go:260-261). The accept loop (server.go:35) then takes two more connections, and the game ends at once as a draw (server.go:55, 61). That start is not modelled.
- Two behaviours of the Go server are kept as written:
  - The turn loop notices a game ended by a departure only after the next accepted move, because nothing unblocks its wait. `AfterMove` is called only after an accepted move.
  - `handleInput` does not check `gameOver`, so moves are still accepted after a departure (`GameServer.LeaverExample`).
- Cells are a datatype `Empty | X | O` rather than the strings " ", "X", "O", and `winner` uses `Empty` for the Go code's "". The Go code never stores any other string in these variables.
- Rules.TrimSpace: works on a sequence of characters, not on UTF-8 bytes, so invalid UTF-8 is not modelled.
- LocalGame.Game.Run: takes a finite sequence of reads. At the end of standard input main.go loops forever, failing every read and passing the turn each time. The sequence of `StdinRead` values is also an abstraction of the input: `playTurn` builds a new `bufio.Reader` on each turn (main.go:55). When standard input is a pipe, the lines a discarded reader had buffered are lost, and the model does not capture that.
- The commented-out `waitForMove` (server.go:86-98) is dead code and is not modelled.
