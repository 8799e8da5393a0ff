/** The rules shared by the networked server (server.go) and the local game
    (main.go): board values, the coordinate parser, the input splitter, the
    eight winning lines, fill counts and the text rendering of a board. */
module Rules {

  /** What a cell holds; the Go code stores these as the strings " ", "X"
      and "O", and the active mark is always X or O. */
  datatype Cell = Empty | X | O

  predicate IsMark(c: Cell) {
    c != Empty
  }

  /** The character of the one-character string the Go code stores for a cell. */
  function Glyph(c: Cell): char {
    match c
    case Empty => ' '
    case X => 'X'
    case O => 'O'
  }

  /** A row or column index. */
  type Coord = k: int | 0 <= k < 3

  /** The value of a 3x3 board: three rows of three cells. */
  type Grid = g: seq<seq<Cell>> | |g| == 3 && forall i | 0 <= i < 3 :: |g[i]| == 3
    witness [[Empty, Empty, Empty], [Empty, Empty, Empty], [Empty, Empty, Empty]]

  const EmptyGrid: Grid := [[Empty, Empty, Empty], [Empty, Empty, Empty], [Empty, Empty, Empty]]

  /** Boards are equal when all their cells are. */
  lemma GridEq(g: Grid, h: Grid)
    requires forall i, j | 0 <= i < 3 && 0 <= j < 3 :: g[i][j] == h[i][j]
    ensures g == h
  {
    assert g[0] == h[0] && g[1] == h[1] && g[2] == h[2];
  }

  /** The board after writing `m` into cell (r, c). */
  function Place(g: Grid, r: Coord, c: Coord, m: Cell): (h: Grid)
    ensures h[r][c] == m
    ensures forall i, j | 0 <= i < 3 && 0 <= j < 3 && (i, j) != (r, c) :: h[i][j] == g[i][j]
  {
    g[r := g[r][c := m]]
  }

  // ---------------------------------------------------------------------
  // Counting cells

  /** Number of occurrences of `x` in `s`. */
  function Count<T(==)>(s: seq<T>, x: T): (n: nat)
    ensures n <= |s|
  {
    if s == [] then 0 else (if s[0] == x then 1 else 0) + Count(s[1..], x)
  }

  /** No occurrence exactly when the count is zero; only `x` exactly when
      the count is the length. */
  lemma {:induction false} CountBounds<T>(s: seq<T>, x: T)
    ensures Count(s, x) == 0 <==> x !in s
    ensures Count(s, x) == |s| <==> forall k | 0 <= k < |s| :: s[k] == x
  {
    if s != [] {
      assert s == [s[0]] + s[1..];
      CountBounds(s[1..], x);
      if Count(s, x) == |s| {
        forall k | 0 <= k < |s| ensures s[k] == x {
          if k > 0 {
            assert s[k] == s[1..][k - 1];
          }
        }
      }
      if forall k | 0 <= k < |s| :: s[k] == x {
        assert forall k | 0 <= k < |s| - 1 :: s[1..][k] == s[k + 1];
      }
    }
  }

  lemma {:induction false} CountUpdate<T>(s: seq<T>, k: nat, v: T, x: T)
    requires k < |s|
    ensures Count(s[k := v], x) == Count(s, x) - (if s[k] == x then 1 else 0) + (if v == x then 1 else 0)
  {
    if k == 0 {
      assert s[k := v][1..] == s[1..];
    } else {
      CountUpdate(s[1..], k - 1, v, x);
      assert s[k := v][1..] == s[1..][k - 1 := v];
    }
  }

  /** The nine cells in row-major order. */
  function Flatten(g: Grid): (cells: seq<Cell>)
    ensures |cells| == 9
  {
    g[0] + g[1] + g[2]
  }

  /** Cell (i, j) sits at index 3 * i + j of the flattened board. */
  lemma FlattenAt(g: Grid)
    ensures forall i, j | 0 <= i < 3 && 0 <= j < 3 :: Flatten(g)[3 * i + j] == g[i][j]
  {
  }

  lemma FlattenPlace(g: Grid, r: Coord, c: Coord, m: Cell)
    ensures Flatten(Place(g, r, c, m)) == Flatten(g)[3 * r + c := m]
  {
    var h := Place(g, r, c, m);
    FlattenAt(g);
    FlattenAt(h);
    forall k | 0 <= k < 9
      ensures Flatten(h)[k] == Flatten(g)[3 * r + c := m][k]
    {
      assert Flatten(h)[3 * (k / 3) + k % 3] == h[k / 3][k % 3];
      assert Flatten(g)[3 * (k / 3) + k % 3] == g[k / 3][k % 3];
    }
  }

  /** How many cells are not empty (what `numFilled` tracks). */
  function CountFilled(g: Grid): (n: nat)
    ensures n <= 9
  {
    9 - Count(Flatten(g), Empty)
  }

  /** Writing a mark into an empty cell raises the fill count by exactly one,
      and raises the count of that mark by one and of no other mark. */
  lemma PlaceCounts(g: Grid, r: Coord, c: Coord, m: Cell, x: Cell)
    requires g[r][c] == Empty && m != Empty && x != Empty
    ensures CountFilled(Place(g, r, c, m)) == CountFilled(g) + 1
    ensures Count(Flatten(Place(g, r, c, m)), x) == Count(Flatten(g), x) + (if x == m then 1 else 0)
  {
    FlattenPlace(g, r, c, m);
    FlattenAt(g);
    assert Flatten(g)[3 * r + c] == Empty;
    CountUpdate(Flatten(g), 3 * r + c, m, Empty);
    CountUpdate(Flatten(g), 3 * r + c, m, x);
  }

  /** The board is full exactly when the fill count is 9. */
  lemma FullBoard(g: Grid)
    ensures CountFilled(g) == 9 <==> forall i, j | 0 <= i < 3 && 0 <= j < 3 :: g[i][j] != Empty
  {
    var cells := Flatten(g);
    FlattenAt(g);
    CountBounds(cells, Empty);
    if CountFilled(g) == 9 {
      forall i, j | 0 <= i < 3 && 0 <= j < 3 ensures g[i][j] != Empty {
        assert cells[3 * i + j] == g[i][j];
      }
    } else {
      var k :| 0 <= k < 9 && cells[k] == Empty;
      assert cells[3 * (k / 3) + k % 3] == g[k / 3][k % 3];
    }
  }

  /** Every cell occupied in `before` holds the same mark in `after`. */
  predicate Extends(before: Grid, after: Grid) {
    forall i, j | 0 <= i < 3 && 0 <= j < 3 :: before[i][j] != Empty ==> after[i][j] == before[i][j]
  }

  lemma ExtendsTrans(a: Grid, b: Grid, c: Grid)
    requires Extends(a, b) && Extends(b, c)
    ensures Extends(a, c)
  {
  }

  /** Equal numbers of X and O with X to move, or one more X with O to move. */
  predicate Balanced(g: Grid, player: Cell) {
    var xs, os := Count(Flatten(g), X), Count(Flatten(g), O);
    (player == X && xs == os) || (player == O && xs == os + 1)
  }

  // ---------------------------------------------------------------------
  // Marks and turns

  /** `switchPlayer` (main.go): O after X, and X after anything else. */
  function SwitchPlayer(current: Cell): (next: Cell)
    ensures IsMark(next)
    ensures next == O <==> current == X
  {
    if current == X then O else X
  }

  /** On the two marks, switching is an involution without fixed points. */
  lemma SwitchPlayerInvolution(p: Cell)
    requires IsMark(p)
    ensures SwitchPlayer(SwitchPlayer(p)) == p && SwitchPlayer(p) != p
  {
  }

  /** The seat index after `(currentPlayerIndex + 1) % 2`. */
  function NextSeat(index: int): (next: int)
    requires index == 0 || index == 1
    ensures next == 1 - index
  {
    (index + 1) % 2
  }

  // ---------------------------------------------------------------------
  // Parsing a move

  /** The decimal text of a coordinate (what `%d` prints for 0, 1, 2). */
  function Digit(k: Coord): (s: string)
    ensures |s| == 1 && '0' <= s[0] <= '2'
  {
    if k == 0 then "0" else if k == 1 then "1" else "2"
  }

  /** `parseInput`: "0", "1", "2" give 0, 1, 2 and every other string -1. */
  function ParseInput(input: string): (r: int)
    ensures -1 <= r <= 2
    ensures r != -1 ==> input == Digit(r)
    ensures r == -1 ==> input != "0" && input != "1" && input != "2"
  {
    if input == "0" then 0
    else if input == "1" then 1
    else if input == "2" then 2
    else -1
  }

  /** `strings.Split(s, sep)` for a one-character separator: the pieces
      between the separators. */
  function Split(s: string, sep: char): (parts: seq<string>)
    ensures |parts| >= 1
    decreases |s|
  {
    if s == [] then [""]
    else
      var rest := Split(s[1..], sep);
      if s[0] == sep then [""] + rest
      else [[s[0]] + rest[0]] + rest[1..]
  }

  /** There is one more piece than there are separators, and no piece
      holds the separator. */
  lemma {:induction false} SplitPieces(s: string, sep: char)
    ensures |Split(s, sep)| == Count(s, sep) + 1
    ensures forall k | 0 <= k < |Split(s, sep)| :: sep !in Split(s, sep)[k]
    decreases |s|
  {
    if s != [] {
      SplitPieces(s[1..], sep);
      var rest := Split(s[1..], sep);
      var parts := Split(s, sep);
      if s[0] == sep {
        assert parts[1..] == rest;
      } else {
        assert parts[1..] == rest[1..];
        assert sep !in [s[0]] + rest[0];
      }
    }
  }

  /** `strings.Join(parts, sep)`, the inverse of Split. */
  function Join(parts: seq<string>, sep: char): string
    requires |parts| >= 1
  {
    if |parts| == 1 then parts[0] else parts[0] + [sep] + Join(parts[1..], sep)
  }

  lemma {:induction false} SplitJoin(s: string, sep: char)
    ensures Join(Split(s, sep), sep) == s
    decreases |s|
  {
    if s != [] {
      SplitJoin(s[1..], sep);
      var rest := Split(s[1..], sep);
      if s[0] != sep {
        var parts := Split(s, sep);
        assert parts[0] == [s[0]] + rest[0];
        if |rest| == 1 {
          assert Join(parts, sep) == [s[0]] + rest[0];
        } else {
          assert parts[1..] == rest[1..];
          assert Join(parts, sep) == [s[0]] + rest[0] + [sep] + Join(rest[1..], sep);
        }
      } else {
        assert Split(s, sep)[1..] == rest;
      }
    }
  }

  /** Splitting a separator-free prefix `a` glues it to the first piece. */
  lemma {:induction false} SplitPrefix(a: string, b: string, sep: char)
    requires sep !in a
    ensures Split(a + b, sep) == [a + Split(b, sep)[0]] + Split(b, sep)[1..]
    decreases |a|
  {
    var parts := Split(b, sep);
    if a != [] {
      assert (a + b)[1..] == a[1..] + b;
      assert a[0] != sep;
      SplitPrefix(a[1..], b, sep);
      assert [a[0]] + (a[1..] + parts[0]) == a + parts[0];
    } else {
      assert a + b == b;
      assert a + parts[0] == parts[0];
      assert [parts[0]] + parts[1..] == parts;
    }
  }

  /** A separator-free string is a single piece. */
  lemma SplitNone(b: string, sep: char)
    requires sep !in b
    ensures Split(b, sep) == [b]
  {
    SplitPrefix(b, "", sep);
    assert b + "" == b;
  }

  lemma SplitTwoSound(s: string, a: string, b: string)
    requires Split(s, ' ') == [a, b]
    ensures s == a + " " + b && ' ' !in a && ' ' !in b
  {
    SplitJoin(s, ' ');
    SplitPieces(s, ' ');
    assert [a, b][1..] == [b];
  }

  lemma SplitTwoComplete(a: string, b: string)
    requires ' ' !in a && ' ' !in b
    ensures Split(a + " " + b, ' ') == [a, b]
  {
    var tail := " " + b;
    assert a + " " + b == a + tail;
    SplitPrefix(a, tail, ' ');
    assert tail[0] == ' ' && tail[1..] == b;
    SplitNone(b, ' ');
    assert Split(tail, ' ') == [""] + [b];
    assert a + "" == a;
  }

  /** The input holds exactly two space-separated tokens `a` and `b`. */
  lemma SplitTwo(s: string, a: string, b: string)
    ensures Split(s, ' ') == [a, b] <==> (s == a + " " + b && ' ' !in a && ' ' !in b)
  {
    if Split(s, ' ') == [a, b] {
      SplitTwoSound(s, a, b);
    }
    if s == a + " " + b && ' ' !in a && ' ' !in b {
      SplitTwoComplete(a, b);
    }
  }

  /** What the split-and-parse steps make of one input line. */
  datatype Parsed = Malformed | BadNumber | At(row: Coord, col: Coord)

  function ParseMove(input: string): Parsed {
    var coords := Split(input, ' ');
    if |coords| != 2 then Malformed
    else
      var row, col := ParseInput(coords[0]), ParseInput(coords[1]);
      if row == -1 || col == -1 then BadNumber else At(row, col)
  }

  /** The only inputs naming a cell are the nine strings "r c". */
  lemma ParseMoveExact(input: string, r: Coord, c: Coord)
    ensures ParseMove(input) == At(r, c) <==> input == Digit(r) + " " + Digit(c)
  {
    SplitTwo(input, Digit(r), Digit(c));
    if ParseMove(input) == At(r, c) {
      var coords := Split(input, ' ');
      SplitTwo(input, coords[0], coords[1]);
      assert coords == [coords[0], coords[1]];
    }
  }

  /** The token count is wrong exactly when the input does not hold one space. */
  lemma ParseMoveMalformed(input: string)
    ensures ParseMove(input) == Malformed <==> Count(input, ' ') != 1
  {
    SplitPieces(input, ' ');
  }

  /** How a game answers an input line or a failed read. */
  datatype Reply =
    | Accepted
    | NotYourTurn
    | WrongTokenCount
    | InvalidNumber
    | CellTaken
    | ReadFailed
    | IndexOutOfRange

  /** How a game answers a move line, once the sender is known to be on turn;
      the checks come in the order of server.go and main.go. */
  function MoveReply(g: Grid, input: string): Reply {
    match ParseMove(input)
    case Malformed => WrongTokenCount
    case BadNumber => InvalidNumber
    case At(r, c) => if g[r][c] != Empty then CellTaken else Accepted
  }

  /** A move is accepted exactly when it names an empty cell as "r c". */
  lemma MoveAccepted(g: Grid, input: string)
    ensures MoveReply(g, input) == Accepted <==>
      exists r: Coord, c: Coord :: input == Digit(r) + " " + Digit(c) && g[r][c] == Empty
  {
    if MoveReply(g, input) == Accepted {
      var p := ParseMove(input);
      ParseMoveExact(input, p.row, p.col);
    }
    if exists r: Coord, c: Coord :: input == Digit(r) + " " + Digit(c) && g[r][c] == Empty {
      var r: Coord, c: Coord :| input == Digit(r) + " " + Digit(c) && g[r][c] == Empty;
      ParseMoveExact(input, r, c);
    }
  }

  // ---------------------------------------------------------------------
  // White space (Go's strings.TrimSpace and unicode.IsSpace)

  predicate IsSpace(ch: char) {
    ch == '\t' || ch == '\n' || ch == '\U{000B}' || ch == '\U{000C}' || ch == '\r' || ch == ' '
    || ch == '\U{0085}' || ch == '\U{00A0}' || ch == '\U{1680}'
    || ('\U{2000}' <= ch <= '\U{200A}')
    || ch == '\U{2028}' || ch == '\U{2029}' || ch == '\U{202F}' || ch == '\U{205F}' || ch == '\U{3000}'
  }

  function TrimLeft(s: string): string {
    if s != [] && IsSpace(s[0]) then TrimLeft(s[1..]) else s
  }

  function TrimRight(s: string): string {
    if s != [] && IsSpace(s[|s| - 1]) then TrimRight(s[..|s| - 1]) else s
  }

  /** `strings.TrimSpace`: the input without its leading and trailing white space. */
  function TrimSpace(s: string): string {
    TrimRight(TrimLeft(s))
  }

  /** TrimLeft cuts a prefix of white space and stops at the first other character. */
  lemma {:induction false} TrimLeftCut(s: string)
    ensures var r := TrimLeft(s);
      |r| <= |s| && r == s[|s| - |r|..] &&
      (forall k | 0 <= k < |s| - |r| :: IsSpace(s[k])) &&
      (r == [] || !IsSpace(r[0]))
    decreases |s|
  {
    if s != [] && IsSpace(s[0]) {
      TrimLeftCut(s[1..]);
      var r := TrimLeft(s);
      assert s[1..][|s| - 1 - |r|..] == s[|s| - |r|..];
      forall k | 0 <= k < |s| - |r| ensures IsSpace(s[k]) {
        if k > 0 {
          assert s[k] == s[1..][k - 1];
        }
      }
    }
  }

  /** TrimRight cuts a suffix of white space and stops at the last other character. */
  lemma {:induction false} TrimRightCut(s: string)
    ensures var r := TrimRight(s);
      |r| <= |s| && r == s[..|r|] &&
      (forall k | |r| <= k < |s| :: IsSpace(s[k])) &&
      (r == [] || !IsSpace(r[|r| - 1]))
    decreases |s|
  {
    if s != [] && IsSpace(s[|s| - 1]) {
      var front := s[..|s| - 1];
      TrimRightCut(front);
      var r := TrimRight(s);
      assert front[..|r|] == s[..|r|];
      forall k | |r| <= k < |s| ensures IsSpace(s[k]) {
        if k < |s| - 1 {
          assert s[k] == front[k];
        }
      }
    }
  }

  /** TrimSpace keeps one stretch `s[i..j]` of its input and drops only
      white space before and after it; what is kept neither starts nor
      ends with white space. */
  lemma TrimSpaceCut(s: string)
    ensures exists i, j | 0 <= i <= j <= |s| ::
      (TrimSpace(s) == s[i..j] && (forall k | 0 <= k < i :: IsSpace(s[k])) && (forall k | j <= k < |s| :: IsSpace(s[k])))
    ensures var r := TrimSpace(s); r == [] || (!IsSpace(r[0]) && !IsSpace(r[|r| - 1]))
  {
    var t := TrimLeft(s);
    TrimLeftCut(s);
    TrimRightCut(t);
    var r := TrimSpace(s);
    var i := |s| - |t|;
    var j := i + |r|;
    assert r == s[i..j];
    forall k | j <= k < |s| ensures IsSpace(s[k]) {
      assert s[k] == t[k - i];
    }
    if r != [] {
      assert r[0] == t[0];
    }
  }

  /** Trimming removes exactly the white space around a core that neither
      starts nor ends with white space, such as the newline ReadString keeps. */
  lemma TrimAround(front: string, core: string, back: string)
    requires forall k | 0 <= k < |front| :: IsSpace(front[k])
    requires forall k | 0 <= k < |back| :: IsSpace(back[k])
    requires core == [] || (!IsSpace(core[0]) && !IsSpace(core[|core| - 1]))
    ensures TrimSpace(front + core + back) == core
  {
    var s := front + core + back;
    assert s == front + (core + back);
    TrimLeftSkip(front, core + back);
    if core == [] {
      assert core + back == back;
      TrimLeftAllSpace(back);
    } else {
      assert (core + back)[0] == core[0];
      TrimRightBack(core, back);
    }
  }

  lemma {:induction false} TrimLeftSkip(front: string, rest: string)
    requires forall k | 0 <= k < |front| :: IsSpace(front[k])
    ensures TrimLeft(front + rest) == TrimLeft(rest)
    decreases |front|
  {
    if front != [] {
      assert (front + rest)[1..] == front[1..] + rest;
      TrimLeftSkip(front[1..], rest);
    } else {
      assert front + rest == rest;
    }
  }

  lemma {:induction false} TrimLeftAllSpace(s: string)
    requires forall k | 0 <= k < |s| :: IsSpace(s[k])
    ensures TrimLeft(s) == []
    decreases |s|
  {
    if s != [] {
      TrimLeftAllSpace(s[1..]);
    }
  }

  lemma {:induction false} TrimRightBack(core: string, back: string)
    requires core != [] && !IsSpace(core[|core| - 1])
    requires forall k | 0 <= k < |back| :: IsSpace(back[k])
    ensures TrimRight(core + back) == core
    decreases |back|
  {
    if back != [] {
      var s := core + back;
      assert s[..|s| - 1] == core + back[..|back| - 1];
      TrimRightBack(core, back[..|back| - 1]);
    } else {
      assert core + back == core;
    }
  }

  // ---------------------------------------------------------------------
  // Winning lines

  datatype Pos = Pos(row: Coord, col: Coord)
  datatype Line = Line(a: Pos, b: Pos, c: Pos)

  /** The eight lines: three rows, three columns, two diagonals. */
  const Lines: seq<Line> := [
    Line(Pos(0, 0), Pos(0, 1), Pos(0, 2)),
    Line(Pos(1, 0), Pos(1, 1), Pos(1, 2)),
    Line(Pos(2, 0), Pos(2, 1), Pos(2, 2)),
    Line(Pos(0, 0), Pos(1, 0), Pos(2, 0)),
    Line(Pos(0, 1), Pos(1, 1), Pos(2, 1)),
    Line(Pos(0, 2), Pos(1, 2), Pos(2, 2)),
    Line(Pos(0, 0), Pos(1, 1), Pos(2, 2)),
    Line(Pos(0, 2), Pos(1, 1), Pos(2, 0))
  ]

  function CellAt(g: Grid, p: Pos): Cell {
    g[p.row][p.col]
  }

  predicate Holds(g: Grid, l: Line, s: Cell) {
    CellAt(g, l.a) == s && CellAt(g, l.b) == s && CellAt(g, l.c) == s
  }

  /** `s` occupies all three cells of some line. */
  predicate Wins(g: Grid, s: Cell) {
    exists k | 0 <= k < |Lines| :: Holds(g, Lines[k], s)
  }

  /** Lines 0-2 are the rows and lines 3-5 the columns, by index. */
  lemma LineShapes(i: Coord)
    ensures Lines[i] == Line(Pos(i, 0), Pos(i, 1), Pos(i, 2))
    ensures Lines[3 + i] == Line(Pos(0, i), Pos(1, i), Pos(2, i))
  {
  }

  /** What row `i`, column `i` and the two diagonals require. */
  lemma LineCells(g: Grid, i: Coord, s: Cell)
    ensures Holds(g, Lines[i], s) <==> g[i][0] == s && g[i][1] == s && g[i][2] == s
    ensures Holds(g, Lines[3 + i], s) <==> g[0][i] == s && g[1][i] == s && g[2][i] == s
    ensures Holds(g, Lines[6], s) <==> g[0][0] == s && g[1][1] == s && g[2][2] == s
    ensures Holds(g, Lines[7], s) <==> g[0][2] == s && g[1][1] == s && g[2][0] == s
  {
    LineShapes(i);
  }

  /** Writing mark `m` never completes a line for any other cell value. */
  lemma PlaceKeepsOthersLines(g: Grid, r: Coord, c: Coord, m: Cell, q: Cell)
    requires q != m
    ensures Wins(Place(g, r, c, m), q) ==> Wins(g, q)
  {
    var h := Place(g, r, c, m);
    if Wins(h, q) {
      var k :| 0 <= k < |Lines| && Holds(h, Lines[k], q);
      assert Holds(g, Lines[k], q);
    }
  }

  /** A legal move in a game still in play: the occupied cells stay, the
      marks stay in turn, and the mark that did not move still has no line. */
  lemma MoveKeepsPlay(g: Grid, r: Coord, c: Coord, m: Cell)
    requires g[r][c] == Empty && IsMark(m)
    requires !Wins(g, X) && !Wins(g, O) && Balanced(g, m)
    ensures Extends(g, Place(g, r, c, m))
    ensures Balanced(Place(g, r, c, m), SwitchPlayer(m))
    ensures !Wins(Place(g, r, c, m), SwitchPlayer(m))
  {
    PlaceCounts(g, r, c, m, X);
    PlaceCounts(g, r, c, m, O);
    PlaceKeepsOthersLines(g, r, c, m, SwitchPlayer(m));
  }

  /** Wins, spelled out line by line. */
  lemma WinsCases(g: Grid, s: Cell)
    ensures Wins(g, s) <==>
      Holds(g, Lines[0], s) || Holds(g, Lines[1], s) || Holds(g, Lines[2], s) || Holds(g, Lines[3], s) ||
      Holds(g, Lines[4], s) || Holds(g, Lines[5], s) || Holds(g, Lines[6], s) || Holds(g, Lines[7], s)
  {
  }

  /** The empty board: nothing filled, no line for any mark. */
  lemma EmptyGridFacts()
    ensures CountFilled(EmptyGrid) == 0
    ensures Count(Flatten(EmptyGrid), X) == 0 && Count(Flatten(EmptyGrid), O) == 0
    ensures !Wins(EmptyGrid, X) && !Wins(EmptyGrid, O)
  {
    var cells := Flatten(EmptyGrid);
    assert cells == [Empty, Empty, Empty, Empty, Empty, Empty, Empty, Empty, Empty];
    CountBounds(cells, Empty);
    CountBounds(cells, X);
    CountBounds(cells, O);
    WinsCases(EmptyGrid, X);
    WinsCases(EmptyGrid, O);
  }

  // ---------------------------------------------------------------------
  // Rendering

  const Header: string := "   0   1   2\n"
  const Separator: string := "  ---+---+---\n"

  /** One cell as `" %s "` prints it. */
  function CellText(c: Cell): string {
    [' ', Glyph(c), ' ']
  }

  /** The lines `printBoard` writes: the column header, then each row as
      its number, a space and its three cells joined by "|", with a
      separator line after rows 0 and 1 only. */
  function BoardLines(g: Grid): string {
    Header +
    Digit(0) + " " + CellText(g[0][0]) + "|" + CellText(g[0][1]) + "|" + CellText(g[0][2]) + "\n" + Separator +
    Digit(1) + " " + CellText(g[1][0]) + "|" + CellText(g[1][1]) + "|" + CellText(g[1][2]) + "\n" + Separator +
    Digit(2) + " " + CellText(g[2][0]) + "|" + CellText(g[2][1]) + "|" + CellText(g[2][2]) + "\n"
  }

  /** The text `sendBoardToAll` sends: the same lines and one blank line. */
  function BoardMessage(g: Grid): string {
    BoardLines(g) + "\n"
  }

  /** `start` followed by the first `j` cells of a row, as the renderer's
      inner loop appends them. */
  ghost function CellsFrom(start: string, row: seq<Cell>, j: nat): string
    requires j <= |row|
  {
    if j == 0 then start else CellsFrom(start, row, j - 1) + (if j - 1 != 0 then "|" else "") + CellText(row[j - 1])
  }

  /** The header and the first `i` rows, as the renderer's outer loop
      appends them. */
  ghost function RowsFrom(g: Grid, i: nat): string
    requires i <= 3
  {
    if i == 0 then Header
    else CellsFrom(RowsFrom(g, i - 1) + Digit(i - 1) + " ", g[i - 1], 3) + "\n" + (if i - 1 != 2 then Separator else "")
  }

  /** All three rows are the whole rendering. */
  lemma RowsFromAll(g: Grid)
    ensures RowsFrom(g, 3) == BoardLines(g)
  {
    var s0 := Header + Digit(0) + " ";
    assert CellsFrom(s0, g[0], 1) == s0 + CellText(g[0][0]);
    assert CellsFrom(s0, g[0], 3) == s0 + CellText(g[0][0]) + "|" + CellText(g[0][1]) + "|" + CellText(g[0][2]);
    var r1 := s0 + CellText(g[0][0]) + "|" + CellText(g[0][1]) + "|" + CellText(g[0][2]) + "\n" + Separator;
    assert RowsFrom(g, 1) == r1;
    var s1 := r1 + Digit(1) + " ";
    assert CellsFrom(s1, g[1], 1) == s1 + CellText(g[1][0]);
    assert CellsFrom(s1, g[1], 3) == s1 + CellText(g[1][0]) + "|" + CellText(g[1][1]) + "|" + CellText(g[1][2]);
    var r2 := s1 + CellText(g[1][0]) + "|" + CellText(g[1][1]) + "|" + CellText(g[1][2]) + "\n" + Separator;
    assert RowsFrom(g, 2) == r2;
    var s2 := r2 + Digit(2) + " ";
    assert CellsFrom(s2, g[2], 1) == s2 + CellText(g[2][0]);
    assert CellsFrom(s2, g[2], 3) == s2 + CellText(g[2][0]) + "|" + CellText(g[2][1]) + "|" + CellText(g[2][2]);
    var r3 := s2 + CellText(g[2][0]) + "|" + CellText(g[2][1]) + "|" + CellText(g[2][2]) + "\n";
    assert RowsFrom(g, 3) == r3 + "";
    assert r3 + "" == r3;
  }

  /** The cell a rendered character stands for. */
  function CellOf(ch: char): (c: Cell)
    ensures Glyph(c) == ch || (c == Empty && ch != 'X' && ch != 'O')
  {
    if ch == 'X' then X else if ch == 'O' then O else Empty
  }

  /** Reads the nine cells back out of a rendered board. */
  function ReadBoard(text: string): Grid
    requires |text| >= 83
  {
    [[CellOf(text[16]), CellOf(text[20]), CellOf(text[24])],
     [CellOf(text[44]), CellOf(text[48]), CellOf(text[52])],
     [CellOf(text[72]), CellOf(text[76]), CellOf(text[80])]]
  }

  /** Each cell is read back from its own character. */
  lemma CellOfGlyph(c: Cell)
    ensures CellOf(Glyph(c)) == c
  {
  }

  /** Where the header and the nine cell characters sit in a rendered board. */
  lemma BoardLinesLayout(g: Grid)
    ensures |BoardLines(g)| == 83 && BoardLines(g)[..13] == Header
    ensures var t := BoardLines(g);
      t[16] == Glyph(g[0][0]) && t[20] == Glyph(g[0][1]) && t[24] == Glyph(g[0][2]) &&
      t[44] == Glyph(g[1][0]) && t[48] == Glyph(g[1][1]) && t[52] == Glyph(g[1][2]) &&
      t[72] == Glyph(g[2][0]) && t[76] == Glyph(g[2][1]) && t[80] == Glyph(g[2][2])
  {
    var t := BoardLines(g);
    assert t[..13] == Header;
  }

  /** Any text with the nine cell characters in place reads back as the board. */
  lemma ReadLayout(t: string, g: Grid)
    requires |t| >= 83
    requires t[16] == Glyph(g[0][0]) && t[20] == Glyph(g[0][1]) && t[24] == Glyph(g[0][2])
    requires t[44] == Glyph(g[1][0]) && t[48] == Glyph(g[1][1]) && t[52] == Glyph(g[1][2])
    requires t[72] == Glyph(g[2][0]) && t[76] == Glyph(g[2][1]) && t[80] == Glyph(g[2][2])
    ensures ReadBoard(t) == g
  {
    var h := ReadBoard(t);
    assert h[0][0] == g[0][0] by { CellOfGlyph(g[0][0]); }
    assert h[0][1] == g[0][1] by { CellOfGlyph(g[0][1]); }
    assert h[0][2] == g[0][2] by { CellOfGlyph(g[0][2]); }
    assert h[1][0] == g[1][0] by { CellOfGlyph(g[1][0]); }
    assert h[1][1] == g[1][1] by { CellOfGlyph(g[1][1]); }
    assert h[1][2] == g[1][2] by { CellOfGlyph(g[1][2]); }
    assert h[2][0] == g[2][0] by { CellOfGlyph(g[2][0]); }
    assert h[2][1] == g[2][1] by { CellOfGlyph(g[2][1]); }
    assert h[2][2] == g[2][2] by { CellOfGlyph(g[2][2]); }
    GridEq(h, g);
  }

  /** A rendered board has a fixed layout, and its cells can be read back from it. */
  lemma RenderRoundTrip(g: Grid)
    ensures |BoardLines(g)| == 83 && BoardLines(g)[..13] == Header
    ensures ReadBoard(BoardLines(g)) == g && ReadBoard(BoardMessage(g)) == g
  {
    BoardLinesLayout(g);
    var t := BoardLines(g);
    ReadLayout(t, g);
    var m := BoardMessage(g);
    assert m[..83] == t;
    ReadLayout(m, g);
  }
}
