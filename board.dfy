/** The 3x3 board array both programs update in place, and the win check
    (`checkWin`, server.go and main.go) that reads it. */
module Board {
  import opened Rules

  predicate Square(a: array2<Cell>) {
    a.Length0 == 3 && a.Length1 == 3
  }

  /** The current contents of the board array as a value. */
  ghost function Snapshot(a: array2<Cell>): Grid
    requires Square(a)
    reads a
  {
    [[a[0, 0], a[0, 1], a[0, 2]],
     [a[1, 0], a[1, 1], a[1, 2]],
     [a[2, 0], a[2, 1], a[2, 2]]]
  }

  lemma SnapshotAt(a: array2<Cell>)
    requires Square(a)
    ensures forall i, j | 0 <= i < 3 && 0 <= j < 3 :: Snapshot(a)[i][j] == a[i, j]
  {
  }

  /** Writes mark `m` into cell (r, c) of the board array. */
  method Put(a: array2<Cell>, r: Coord, c: Coord, m: Cell)
    requires Square(a)
    modifies a
    ensures Snapshot(a) == Place(old(Snapshot(a)), r, c, m)
  {
    a[r, c] := m;
    GridEq(Snapshot(a), Place(old(Snapshot(a)), r, c, m));
  }

  /** The checks `handleInput` (server.go) and `playTurn` (main.go) make
      once the line is known: two space-separated tokens, both coordinates,
      and an empty cell; only then is mark `m` written. */
  method TryMove(a: array2<Cell>, input: string, m: Cell) returns (reply: Reply)
    requires Square(a)
    modifies a
    ensures reply == MoveReply(old(Snapshot(a)), input)
    ensures reply != Accepted ==> Snapshot(a) == old(Snapshot(a))
    ensures reply == Accepted ==>
      var move := ParseMove(input);
      move.At? && old(Snapshot(a))[move.row][move.col] == Empty &&
      Snapshot(a) == Place(old(Snapshot(a)), move.row, move.col, m)
  {
    SnapshotAt(a);
    var coords := Split(input, ' ');
    if |coords| != 2 {
      return WrongTokenCount;
    }
    var row, col := ParseInput(coords[0]), ParseInput(coords[1]);
    if row == -1 || col == -1 {
      return InvalidNumber;
    }
    if a[row, col] != Empty {
      return CellTaken;
    }
    Put(a, row, col, m);
    return Accepted;
  }

  /** `checkWin`: scans rows and columns together, then the two diagonals,
      and reports whether `symbol` fills one of the eight lines. */
  method CheckWin(a: array2<Cell>, symbol: Cell) returns (won: bool)
    requires Square(a)
    ensures won <==> Wins(Snapshot(a), symbol)
  {
    ghost var g := Snapshot(a);
    SnapshotAt(a);
    for i := 0 to 3
      invariant forall k | 0 <= k < i :: !Holds(g, Lines[k], symbol)
      invariant forall k | 3 <= k < 3 + i :: !Holds(g, Lines[k], symbol)
    {
      LineCells(g, i, symbol);
      if (a[i, 0] == symbol && a[i, 1] == symbol && a[i, 2] == symbol) ||
         (a[0, i] == symbol && a[1, i] == symbol && a[2, i] == symbol)
      {
          return true;
      }
    }
    if (a[0, 0] == symbol && a[1, 1] == symbol && a[2, 2] == symbol) ||
       (a[0, 2] == symbol && a[1, 1] == symbol && a[2, 0] == symbol)
    {
      LineCells(g, 0, symbol);
      return true;
    }
    LineCells(g, 0, symbol);
    forall k | 0 <= k < |Lines| ensures !Holds(g, Lines[k], symbol) {
    }
    return false;
  }
}
