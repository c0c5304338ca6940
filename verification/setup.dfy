/** The starting board (`init_game_board_content`, `init_player_positions`): which cells may hold a
    random wall, that the players can move from it, and that it satisfies the invariant. */
module Setup {
  import opened Board
  import opened Rules
  import opened BombList
  import opened Blasts
  import opened Runs

  const DESTRUCTIBLE_WALL_CHANCE := 20
  const MIN_GAMEBOARD_WIDTH := 10
  const MIN_GAMEBOARD_HEIGHT := 10

  /** `get_probably_destructible_wall` for one value of random(). */
  function DrawWall(random: nat): Tile {
    if random % DESTRUCTIBLE_WALL_CHANCE == 0 then Empty else DestructibleWall
  }

  predicate OuterRow(w: nat, h: nat, c: Coord) {
    (c.y == 0 || c.y == h - 1) && 3 <= c.x < w - 3
  }

  predicate SecondRow(w: nat, h: nat, c: Coord) {
    (c.y == 1 || c.y == h - 2) && 2 <= c.x < w - 2 && c.x % 2 == 0
  }

  predicate ThirdRow(w: nat, h: nat, c: Coord) {
    (c.y == 2 || c.y == h - 3) && 1 <= c.x < w - 1
  }

  predicate InnerRow(w: nat, h: nat, c: Coord) {
    3 <= c.y < h - 3 && RowCell(c.y, c)
  }

  /** Row y, without the odd columns when y is odd. */
  predicate RowCell(y: int, c: Coord) {
    c.y == y && (y % 2 == 0 || c.x % 2 == 0)
  }

  predicate MayBeWall(w: nat, h: nat, c: Coord) {
    OuterRow(w, h, c) || SecondRow(w, h, c) || ThirdRow(w, h, c) || InnerRow(w, h, c)
  }

  // ---- which draw goes to which cell: in the order of the loops of the source ------------------

  function SecondBase(w: nat): (n: nat)
    requires 9 <= w
  {
    2 * (w - 6)
  }

  function ThirdBase(w: nat): (n: nat)
    requires 9 <= w
  {
    SecondBase(w) + w - 3
  }

  /** The cells of an inner row that hold a draw. */
  function RowDraws(w: nat, y: int): nat {
    if y % 2 == 0 then w else (w + 1) / 2
  }

  /** How many draws come before row y. */
  function InnerBase(w: nat, y: nat): (n: nat)
    requires 9 <= w
  {
    if y <= 3 then ThirdBase(w) + 2 * (w - 2) else InnerBase(w, y - 1) + RowDraws(w, y - 1)
  }

  /** The number of the draw that a cell holds. */
  function DrawIndex(w: nat, h: nat, c: Coord): (n: nat)
    requires 9 <= w
  {
    if OuterRow(w, h, c) then 2 * (c.x - 3) + if c.y == 0 then 0 else 1
    else if SecondRow(w, h, c) then SecondBase(w) + c.x - 2 + if c.y == 1 then 0 else 1
    else if ThirdRow(w, h, c) then ThirdBase(w) + 2 * (c.x - 1) + if c.y == 2 then 0 else 1
    else if InnerRow(w, h, c) && c.x >= 0 then InnerBase(w, c.y) + if c.y % 2 == 0 then c.x else c.x / 2
    else 0
  }

  /** The tile that a cell is given. */
  function Drawn(w: nat, h: nat, c: Coord, random: nat -> nat): Tile
    requires 9 <= w
  {
    DrawWall(random(DrawIndex(w, h, c)))
  }

  lemma {:induction false} InnerBaseGrows(w: nat, y: nat, z: nat)
    requires 9 <= w && 3 <= y < z
    ensures InnerBase(w, y) + RowDraws(w, y) <= InnerBase(w, z)
    decreases z
  {
    if y < z - 1 {
      InnerBaseGrows(w, y, z - 1);
    }
  }

  /** The order of the loops: the pairs of the first and last rows column by column, those of the second and
      of the third rows, then the other rows one after the other. */
  ghost predicate DrawnBefore(w: nat, h: nat, c: Coord, d: Coord) {
    || (OuterRow(w, h, c) && (!OuterRow(w, h, d) || c.x < d.x || (c.x == d.x && c.y < d.y)))
    || (SecondRow(w, h, c) && !OuterRow(w, h, d)
        && (!SecondRow(w, h, d) || c.x < d.x || (c.x == d.x && c.y < d.y)))
    || (ThirdRow(w, h, c) && !OuterRow(w, h, d) && !SecondRow(w, h, d)
        && (!ThirdRow(w, h, d) || c.x < d.x || (c.x == d.x && c.y < d.y)))
    || (InnerRow(w, h, c) && InnerRow(w, h, d) && (c.y < d.y || (c.y == d.y && c.x < d.x)))
  }

  /** Draws are used in that order. */
  lemma DrawsInOrder(w: nat, h: nat, c: Coord, d: Coord)
    requires 9 <= w && 9 <= h && w % 2 == 1 && h % 2 == 1 && DrawnBefore(w, h, c, d)
    requires Inside(w, h, c) && Inside(w, h, d) && MayBeWall(w, h, c) && MayBeWall(w, h, d)
    ensures DrawIndex(w, h, c) < DrawIndex(w, h, d)
  {
    if InnerRow(w, h, d) {
      DrawInRow(w, h, d);
      if InnerRow(w, h, c) {
        DrawInRow(w, h, c);
        if c.y < d.y {
          InnerBaseGrows(w, c.y, d.y);
        }
      }
    }
  }

  /** No draw is used for two cells. */
  lemma DrawsApart(w: nat, h: nat, c: Coord, d: Coord)
    requires 9 <= w && 9 <= h && w % 2 == 1 && h % 2 == 1 && c != d
    requires Inside(w, h, c) && Inside(w, h, d) && MayBeWall(w, h, c) && MayBeWall(w, h, d)
    ensures DrawIndex(w, h, c) != DrawIndex(w, h, d)
  {
    if InnerRow(w, h, c) {
      DrawInRow(w, h, c);
    }
    if InnerRow(w, h, d) {
      DrawInRow(w, h, d);
    }
    if InnerRow(w, h, c) && InnerRow(w, h, d) {
      if c.y < d.y {
        InnerBaseGrows(w, c.y, d.y);
      } else if d.y < c.y {
        InnerBaseGrows(w, d.y, c.y);
      }
    }
  }

  lemma DrawInRow(w: nat, h: nat, c: Coord)
    requires 9 <= w && 9 <= h && w % 2 == 1 && Inside(w, h, c) && InnerRow(w, h, c)
    ensures InnerBase(w, 3) <= InnerBase(w, c.y) <= DrawIndex(w, h, c) < InnerBase(w, c.y) + RowDraws(w, c.y)
    ensures c.y % 2 == 1 ==> 2 * (DrawIndex(w, h, c) - InnerBase(w, c.y)) == c.x
  {
    if c.y > 3 {
      InnerBaseGrows(w, 3, c.y);
    }
  }

  /** In row y, whose columns are taken in these steps, draw number `next` comes at column x. */
  predicate InRow(w: nat, y: int, x: int, step: int, next: int)
    requires 9 <= w && 3 <= y
  {
    && step == (if y % 2 == 0 then 1 else 2)
    && if step == 1 then next == InnerBase(w, y) + x else 2 * (next - InnerBase(w, y)) == x
  }

  lemma NextInRow(w: nat, h: nat, y: int, x: int, step: int, next: int)
    requires 9 <= w && 3 <= y < h - 3 && 0 <= x < w && InRow(w, y, x, step, next)
    ensures next == DrawIndex(w, h, Coord(x, y)) && InRow(w, y, x + step, step, next + 1)
  {
  }

  lemma RowDone(w: nat, y: int, x: int, step: int, next: int)
    requires 9 <= w && w % 2 == 1 && 3 <= y && InRow(w, y, x, step, next) && w <= x <= w + step - 1
    ensures next == InnerBase(w, y + 1)
  {
  }

  /** The cells of the part hold their draws; the rest of the board, and all else, is as before. */
  ghost predicate Filled(s: State, r: State, part: Coord -> bool, random: nat -> nat)
    requires 9 <= s.w
  {
    && |s.grid| == s.w * s.h && |r.grid| == |s.grid| && r == s.(grid := r.grid)
    && forall c :: On(s, c) ==> At(r, c) == if part(c) then Drawn(s.w, s.h, c, random) else At(s, c)
  }

  predicate Odd(c: Coord) {
    c.x % 2 == 1 && c.y % 2 == 1
  }

  /** The board before the players are put on it. */
  predicate Laid(w: nat, h: nat, c: Coord, t: Tile, random: nat -> nat)
    requires 9 <= w
  {
    if Odd(c) then t.IndestructibleWall?
    else if MayBeWall(w, h, c) then t == Drawn(w, h, c, random)
    else t.Empty?
  }

  /** Filling one part and then another fills both. */
  lemma FilledBoth(s: State, m: State, r: State, a: Coord -> bool, b: Coord -> bool, both: Coord -> bool, random: nat -> nat)
    requires 9 <= s.w && Filled(s, m, a, random) && m.w == s.w && Filled(m, r, b, random)
    requires forall c :: On(s, c) ==> (both(c) <==> a(c) || b(c))
    ensures Filled(s, r, both, random)
  {
  }

  /** The cells of the second rows left of column x, and those of the pair drawn at x. */
  lemma SecondRowGrows(w: nat, h: nat, x: int, c: Coord)
    requires 9 <= h && 2 <= x < w - 2 && x % 2 == 0
    ensures SecondRow(w, h, c) && c.x < x + 2
      <==> (SecondRow(w, h, c) && c.x < x) || c == Coord(x, 1) || c == Coord(x, h - 2)
  {
  }

  lemma OddColumnGrows(x: int, y: int, c: Coord)
    requires x % 2 == 1 && y % 2 == 1
    ensures Odd(c) && c.x == x && c.y < y + 2 <==> (Odd(c) && c.x == x && c.y < y) || c == Coord(x, y)
  {
  }

  /** The state with the wall cells of column x above row y put in. */
  ghost predicate WalledColumn(s: State, r: State, x: int, y: int) {
    && |s.grid| == s.w * s.h && |r.grid| == |s.grid| && r == s.(grid := r.grid)
    && forall c :: On(s, c) ==> At(r, c) == if Odd(c) && c.x == x && c.y < y then IndestructibleWall else At(s, c)
  }

  lemma WalledColumnEmpty(s: State, x: int)
    requires |s.grid| == s.w * s.h
    ensures WalledColumn(s, s, x, 1)
  {
    assert forall c :: On(s, c) && c.y < 1 ==> c.y == 0;
  }

  lemma WalledColumnGrows(s: State, r: State, x: int, y: int)
    requires WalledColumn(s, r, x, y) && x % 2 == 1 && y % 2 == 1 && On(s, Coord(x, y))
    ensures WalledColumn(s, Put(r, Coord(x, y), IndestructibleWall), x, y + 2)
  {
    var t := Put(r, Coord(x, y), IndestructibleWall);
    forall c | On(s, c)
      ensures At(t, c) == if Odd(c) && c.x == x && c.y < y + 2 then IndestructibleWall else At(s, c)
    {
      OddColumnGrows(x, y, c);
    }
  }

  /** The state with all wall cells left of column x put in. */
  ghost predicate WalledUpTo(s: State, r: State, x: int) {
    && |s.grid| == s.w * s.h && |r.grid| == |s.grid| && r == s.(grid := r.grid)
    && forall c :: On(s, c) ==> At(r, c) == if Odd(c) && c.x < x then IndestructibleWall else At(s, c)
  }

  lemma WalledUpToEmpty(s: State)
    requires |s.grid| == s.w * s.h
    ensures WalledUpTo(s, s, 1)
  {
    assert forall c :: On(s, c) && c.x < 1 ==> c.x == 0;
  }

  lemma WalledUpToGrows(s: State, m: State, r: State, x: int)
    requires WalledUpTo(s, m, x) && WalledColumn(m, r, x, s.h) && x % 2 == 1
    ensures WalledUpTo(s, r, x + 2)
  {
    forall c | On(s, c)
      ensures At(r, c) == if Odd(c) && c.x < x + 2 then IndestructibleWall else At(s, c)
    {
      assert Odd(c) && c.x < x + 2 <==> (Odd(c) && c.x < x) || (Odd(c) && c.x == x);
    }
  }

  lemma RowCellGrows(y: int, step: int, x: int, c: Coord)
    requires step == if y % 2 == 0 then 1 else 2
    requires step == 2 ==> x % 2 == 0
    ensures RowCell(y, c) && c.x < x + step <==> (RowCell(y, c) && c.x < x) || c == Coord(x, y)
  {
  }

  /** Row y filled left of column x, and then the cell at x. */
  lemma FilledCell(s: State, m: State, r: State, y: int, step: int, x: int, random: nat -> nat)
    requires 9 <= s.w && m.w == s.w && m.h == s.h && |m.grid| == m.w * m.h && Inside(s.w, s.h, Coord(x, y))
    requires Filled(s, m, c => RowCell(y, c) && c.x < x, random)
    requires r == Put(m, Coord(x, y), Drawn(s.w, s.h, Coord(x, y), random))
    requires step == (if y % 2 == 0 then 1 else 2) && (step == 2 ==> x % 2 == 0)
    ensures Filled(s, r, c => RowCell(y, c) && c.x < x + step, random)
  {
    forall c {
      RowCellGrows(y, step, x, c);
    }
  }

  /** `init_player_positions`: the corners, in the order of the players. */
  function Corner(w: nat, h: nat, i: int): Coord {
    Coord(if i % 2 == 0 then 0 else w - 1, if i < 2 then 0 else h - 1)
  }

  lemma CornersApart(w: nat, h: nat, i: int)
    requires 9 <= w && 9 <= h && 0 <= i < PLAYER_NUM
    ensures Inside(w, h, Corner(w, h, i))
    ensures forall j :: 0 <= j < PLAYER_NUM && j != i ==> Corner(w, h, j) != Corner(w, h, i)
  {
  }

  ghost predicate IsCorner(w: nat, h: nat, c: Coord) {
    exists i :: 0 <= i < PLAYER_NUM && c == Corner(w, h, i)
  }

  /** Within two steps of a corner along one of its edges. */
  ghost predicate NearCorner(w: nat, h: nat, c: Coord) {
    || ((c.y == 0 || c.y == h - 1) && (c.x <= 2 || w - 3 <= c.x))
    || ((c.x == 0 || c.x == w - 1) && (c.y <= 2 || h - 3 <= c.y))
  }

  /** The four loops draw for exactly the cells that are not odd/odd and not near a corner. */
  lemma MayBeWallIff(w: nat, h: nat, c: Coord)
    requires 9 <= w && 9 <= h && w % 2 == 1 && h % 2 == 1 && Inside(w, h, c)
    ensures MayBeWall(w, h, c) <==> !Odd(c) && !NearCorner(w, h, c)
  {
  }

  /** What the set-up puts on a cell: no draw near a corner, an empty cell for one draw in twenty elsewhere. */
  ghost predicate Furnished(w: nat, h: nat, c: Coord, t: Tile, random: nat -> nat)
    requires 9 <= w
  {
    t == if c.x % 2 == 1 && c.y % 2 == 1 then IndestructibleWall
         else if NearCorner(w, h, c) || random(DrawIndex(w, h, c)) % 20 == 0 then Empty
         else DestructibleWall
  }

  lemma LaidFurnishes(w: nat, h: nat, c: Coord, t: Tile, random: nat -> nat)
    requires 9 <= w && 9 <= h && w % 2 == 1 && h % 2 == 1 && Inside(w, h, c)
    ensures Laid(w, h, c, t, random) <==> Furnished(w, h, c, t, random)
  {
    MayBeWallIff(w, h, c);
  }

  /** A game that has just been set up, whatever the random draws. */
  ghost predicate Start(s: State, random: nat -> nat) {
    && Shape(s) && LegalSize(s)
    && s.bombs == []
    && (forall i :: 0 <= i < PLAYER_NUM ==>
      s.players[i] == Player(Corner(s.w, s.h, i), false) && At(s, Corner(s.w, s.h, i)) == PlayerTile(i))
    && (forall c :: On(s, c) && !IsCorner(s.w, s.h, c) ==> Laid(s.w, s.h, c, At(s, c), random))
  }

  /** Every cell of the starting board. */
  lemma StartExact(s: State, random: nat -> nat, c: Coord)
    requires Start(s, random) && On(s, c)
    ensures forall i :: 0 <= i < PLAYER_NUM && c == Corner(s.w, s.h, i) ==> At(s, c) == PlayerTile(i)
    ensures !IsCorner(s.w, s.h, c) ==> Furnished(s.w, s.h, c, At(s, c), random)
  {
    LaidFurnishes(s.w, s.h, c, At(s, c), random);
  }

  // ---- the board that given draws lead to ------------------------------------------------------------

  function StartTile(w: nat, h: nat, c: Coord, random: nat -> nat): Tile
    requires 9 <= w
  {
    if c == Corner(w, h, 0) then Player1
    else if c == Corner(w, h, 1) then Player2
    else if c == Corner(w, h, 2) then Player3
    else if c == Corner(w, h, 3) then Player4
    else if Odd(c) then IndestructibleWall
    else if MayBeWall(w, h, c) then Drawn(w, h, c, random)
    else Empty
  }

  function StartBoard(w: nat, h: nat, random: nat -> nat): State
    requires 9 <= w && 9 <= h
  {
    State(w, h, seq(w * h, n requires 0 <= n => StartTile(w, h, CoordOf(w, n), random)),
          seq(PLAYER_NUM, i => Player(Corner(w, h, i), false)), [])
  }

  lemma StartBoardShape(w: nat, h: nat, random: nat -> nat)
    requires 9 <= w && 9 <= h
    ensures Shape(StartBoard(w, h, random))
  {
    var s := StartBoard(w, h, random);
    assert w * h >= 0;
    forall i | 0 <= i < PLAYER_NUM
      ensures On(s, s.players[i].pos)
    {
      CornersApart(w, h, i);
    }
  }

  lemma StartBoardAt(w: nat, h: nat, random: nat -> nat, c: Coord)
    requires 9 <= w && 9 <= h && Inside(w, h, c)
    ensures Shape(StartBoard(w, h, random)) && At(StartBoard(w, h, random), c) == StartTile(w, h, c, random)
  {
    StartBoardShape(w, h, random);
    var n := Index(w, h, c);
    assert StartBoard(w, h, random).grid[n] == StartTile(w, h, CoordOf(w, n), random);
  }

  lemma CornerTile(w: nat, h: nat, random: nat -> nat, i: int)
    requires 9 <= w && 9 <= h && 0 <= i < PLAYER_NUM
    ensures StartTile(w, h, Corner(w, h, i), random) == PlayerTile(i)
  {
    CornersApart(w, h, i);
  }

  lemma NotACorner(w: nat, h: nat, random: nat -> nat, c: Coord)
    requires 9 <= w && !IsCorner(w, h, c)
    ensures Laid(w, h, c, StartTile(w, h, c, random), random)
  {
    assert forall i :: 0 <= i < PLAYER_NUM ==> c != Corner(w, h, i);
  }

  /** For every legal size and every random stream there is a starting board. */
  lemma StartExists(w: nat, h: nat, random: nat -> nat)
    requires 9 <= w && 9 <= h && w % 2 == 1 && h % 2 == 1
    ensures Start(StartBoard(w, h, random), random)
  {
    var s := StartBoard(w, h, random);
    StartBoardShape(w, h, random);
    forall i | 0 <= i < PLAYER_NUM
      ensures s.players[i] == Player(Corner(s.w, s.h, i), false) && At(s, Corner(s.w, s.h, i)) == PlayerTile(i)
    {
      CornerTile(w, h, random, i);
      CornersApart(w, h, i);
      StartBoardAt(w, h, random, Corner(w, h, i));
    }
    forall c | On(s, c) && !IsCorner(s.w, s.h, c)
      ensures Laid(s.w, s.h, c, At(s, c), random)
    {
      StartBoardAt(w, h, random, c);
      NotACorner(w, h, random, c);
    }
  }

  /** The draws decide: two boards of one size set up with the same stream are the same. */
  lemma StartUnique(s: State, t: State, random: nat -> nat)
    requires Start(s, random) && Start(t, random) && (s.w, s.h) == (t.w, t.h)
    ensures s == t
  {
    forall c | On(s, c)
      ensures At(s, c) == At(t, c)
    {
      StartExact(s, random, c);
      StartExact(t, random, c);
    }
    assert s.players == t.players;
    SameGrid(s, t);
  }

  lemma SameGrid(s: State, t: State)
    requires Shape(s) && Shape(t) && (s.w, s.h) == (t.w, t.h)
    requires forall c :: On(s, c) ==> At(s, c) == At(t, c)
    ensures s.grid == t.grid
  {
    forall n | 0 <= n < |s.grid|
      ensures s.grid[n] == t.grid[n]
    {
      CoordOfInside(s.w, s.h, n);
      assert At(s, CoordOf(s.w, n)) == At(t, CoordOf(s.w, n));
    }
  }

  /** A stream that never draws a multiple of twenty: walls wherever there may be one. */
  lemma AllWalls(w: nat, h: nat, random: nat -> nat, c: Coord)
    requires 9 <= w && 9 <= h && w % 2 == 1 && h % 2 == 1 && forall k :: random(k) == 1
    requires Inside(w, h, c) && !NearCorner(w, h, c) && !(c.x % 2 == 1 && c.y % 2 == 1)
    ensures Start(StartBoard(w, h, random), random) && At(StartBoard(w, h, random), c) == DestructibleWall
  {
    StartExists(w, h, random);
    StartExact(StartBoard(w, h, random), random, c);
    CornersNear(w, h, c);
  }

  lemma CornersNear(w: nat, h: nat, c: Coord)
    requires 9 <= w && 9 <= h
    ensures IsCorner(w, h, c) ==> NearCorner(w, h, c)
  {
  }

  /** What a cell of the starting board can show. */
  lemma StartCell(s: State, random: nat -> nat, c: Coord)
    requires Start(s, random) && On(s, c)
    ensures At(s, c).IndestructibleWall? <==> Odd(c)
    ensures !At(s, c).Explosion? && !At(s, c).VerticalBorder? && !At(s, c).HorizontalBorder? && !At(s, c).Bomb?
    ensures IsPlayer(At(s, c)) ==> Alive(s, PlayerId(At(s, c))) && s.players[PlayerId(At(s, c))].pos == c
  {
    if IsCorner(s.w, s.h, c) {
      var i :| 0 <= i < PLAYER_NUM && c == Corner(s.w, s.h, i);
      CornerEven(s.w, s.h, i);
    }
  }

  lemma CornerEven(w: nat, h: nat, i: int)
    requires w % 2 == 1 && h % 2 == 1
    ensures !Odd(Corner(w, h, i))
  {
  }

  lemma StartInv(s: State, random: nat -> nat)
    requires Start(s, random)
    ensures Inv(s)
  {
    forall c | On(s, c)
      ensures At(s, c).IndestructibleWall? <==> Odd(c)
      ensures !At(s, c).Explosion? && !At(s, c).VerticalBorder? && !At(s, c).HorizontalBorder? && !At(s, c).Bomb?
      ensures IsPlayer(At(s, c)) ==> Alive(s, PlayerId(At(s, c))) && s.players[PlayerId(At(s, c))].pos == c
    {
      StartCell(s, random, c);
    }
    assert WallLattice(s) && TilesOwned(s) && BombsShown(s);
    forall i | 0 <= i < PLAYER_NUM
      ensures forall j :: 0 <= j < PLAYER_NUM && j != i ==> s.players[j].pos != s.players[i].pos
    {
      CornersApart(s.w, s.h, i);
    }
  }

  /** From any starting board, whatever the random walls, every run keeps the invariant. */
  lemma EveryRunIsSound(s: State, random: nat -> nat, events: seq<Event>)
    requires Start(s, random) && forall e :: e in events ==> LegalEvent(e)
    ensures Inv(Run(s, events)) && OneWay(s, Run(s, events))
  {
    StartInv(s, random);
    RunKeepsInv(s, events);
  }

  /** Around every corner, along both edges, two further cells are free for the player to step on. */
  lemma CornerFree(s: State, random: nat -> nat, i: int, c: Coord)
    requires Start(s, random) && 0 <= i < PLAYER_NUM
    requires On(s, c) && c != Corner(s.w, s.h, i)
    requires
      || (c.y == Corner(s.w, s.h, i).y && -2 <= c.x - Corner(s.w, s.h, i).x <= 2)
      || (c.x == Corner(s.w, s.h, i).x && -2 <= c.y - Corner(s.w, s.h, i).y <= 2)
    ensures At(s, c).Empty?
  {
    assert !IsCorner(s.w, s.h, c);
    assert !Odd(c);
  }

  // ---- every player can survive its own first bomb ------------------------------------------

  function Inward(i: int): (a: Action) { if i % 2 == 0 then Right else Left }
  function Outward(i: int): (a: Action) { if i % 2 == 0 then Left else Right }
  function Away(i: int): (a: Action) { if i < 2 then Down else Up }

  /** Step in along the edge, drop the bomb, step back, leave along the other edge, wait for the explosion. */
  function Script(i: int, dropped: int, now: int): seq<Event> {
    [Moves(Inward(i), i), Drops(i, dropped), Moves(Outward(i), i), Moves(Away(i), i), Moves(Away(i), i), BombsTick(now)]
  }

  /** The two cells next to player i's corner, and the one it finally stands on. */
  function BombCell(w: nat, h: nat, i: int): Coord { NextPosition(Inward(i), Corner(w, h, i)) }
  function PassCell(w: nat, h: nat, i: int): Coord { NextPosition(Away(i), Corner(w, h, i)) }
  function SafeCell(w: nat, h: nat, i: int): Coord { NextPosition(Away(i), PassCell(w, h, i)) }

  /** Player i stands at `at`; its way out is free apart from what it has left on its bomb cell. */
  ghost predicate Escaping(s: State, i: int, at: Coord, onBombCell: Tile)
    requires 0 <= i < PLAYER_NUM
  {
    && Inv(s) && s.players[i] == Player(at, false)
    && At(s, BombCell(s.w, s.h, i)) == onBombCell
    && (forall c :: c in {Corner(s.w, s.h, i), PassCell(s.w, s.h, i), SafeCell(s.w, s.h, i)} ==>
      At(s, c) == if c == at then PlayerTile(i) else Empty)
  }

  lemma WayOutOnBoard(s: State, i: int)
    requires Shape(s) && LegalSize(s) && 0 <= i < PLAYER_NUM
    ensures On(s, Corner(s.w, s.h, i)) && On(s, BombCell(s.w, s.h, i))
    ensures On(s, PassCell(s.w, s.h, i)) && On(s, SafeCell(s.w, s.h, i))
  {
  }

  /** The four cells differ, and the script's moves lead from one to the next. */
  lemma Geometry(w: nat, h: nat, i: int)
    requires 9 <= w && 9 <= h && 0 <= i < PLAYER_NUM
    ensures var b, k, p, q := BombCell(w, h, i), Corner(w, h, i), PassCell(w, h, i), SafeCell(w, h, i);
      && b != k && b != p && b != q && k != p && k != q && p != q
      && NextPosition(Outward(i), b) == k && NextPosition(Away(i), k) == p && NextPosition(Away(i), p) == q
      && (q.x - b.x == 1 || q.x - b.x == -1) && (q.y - b.y == 2 || q.y - b.y == -2)
  {
  }

  lemma WayOutFree(s: State, random: nat -> nat, i: int)
    requires Start(s, random) && 0 <= i < PLAYER_NUM
    ensures On(s, BombCell(s.w, s.h, i)) && At(s, BombCell(s.w, s.h, i)).Empty?
    ensures On(s, PassCell(s.w, s.h, i)) && At(s, PassCell(s.w, s.h, i)).Empty?
    ensures On(s, SafeCell(s.w, s.h, i)) && At(s, SafeCell(s.w, s.h, i)).Empty?
  {
    WayOutOnBoard(s, i);
    CornerFree(s, random, i, BombCell(s.w, s.h, i));
    CornerFree(s, random, i, PassCell(s.w, s.h, i));
    CornerFree(s, random, i, SafeCell(s.w, s.h, i));
  }

  lemma StepIn(s: State, random: nat -> nat, i: int)
    requires Start(s, random) && 0 <= i < PLAYER_NUM
    ensures var r := Move(s, Inward(i), i);
      && Escaping(r, i, BombCell(s.w, s.h, i), PlayerTile(i)) && r.bombs == [] && (r.w, r.h) == (s.w, s.h)
  {
    StartInv(s, random);
    WayOutFree(s, random, i);
    WayOutOnBoard(s, i);
    Geometry(s.w, s.h, i);
    StepInFree(s, i);
  }

  lemma StepInFree(s: State, i: int)
    requires Inv(s) && 0 <= i < PLAYER_NUM && s.bombs == []
    requires s.players[i] == Player(Corner(s.w, s.h, i), false)
    requires At(s, Corner(s.w, s.h, i)) == PlayerTile(i)
    requires On(s, BombCell(s.w, s.h, i)) && At(s, BombCell(s.w, s.h, i)).Empty?
    requires On(s, PassCell(s.w, s.h, i)) && At(s, PassCell(s.w, s.h, i)).Empty?
    requires On(s, SafeCell(s.w, s.h, i)) && At(s, SafeCell(s.w, s.h, i)).Empty?
    ensures var r := Move(s, Inward(i), i);
      && Escaping(r, i, BombCell(s.w, s.h, i), PlayerTile(i)) && r.bombs == [] && (r.w, r.h) == (s.w, s.h)
  {
    Geometry(s.w, s.h, i);
    MoveEffect(s, Inward(i), i);
    MoveKeepsInv(s, Inward(i), i);
  }

  lemma DropInEscape(s: State, i: int, dropped: int)
    requires 0 <= i < PLAYER_NUM && Escaping(s, i, BombCell(s.w, s.h, i), PlayerTile(i)) && s.bombs == []
    ensures var r := Drop(s, i, dropped);
      && Escaping(r, i, BombCell(s.w, s.h, i), Bomb)
      && r.bombs == [BombRecord(BombCell(s.w, s.h, i), dropped)] && (r.w, r.h) == (s.w, s.h)
  {
    WayOutOnBoard(s, i);
    DropKeepsInv(s, i, dropped);
  }

  /** A step onto a free cell of the way out. */
  lemma StepOut(s: State, i: int, from: Coord, a: Action, to: Coord)
    requires 0 <= i < PLAYER_NUM && Escaping(s, i, from, Bomb)
    requires to in {Corner(s.w, s.h, i), PassCell(s.w, s.h, i), SafeCell(s.w, s.h, i)}
    requires to == NextPosition(a, from) != from
    ensures var r := Step(s, Moves(a, i)); Escaping(r, i, to, Bomb) && r.bombs == s.bombs && (r.w, r.h) == (s.w, s.h)
  {
    var r := Move(s, a, i);
    WayOutOnBoard(s, i);
    Geometry(s.w, s.h, i);
    MoveEffect(s, a, i);
    MoveKeepsInv(s, a, i);
    assert Stepped(s, r, i, to);
    forall c | c in {Corner(s.w, s.h, i), PassCell(s.w, s.h, i), SafeCell(s.w, s.h, i)}
      ensures At(r, c) == if c == to then PlayerTile(i) else Empty
    {
      assert c == from || c == to || At(r, c) == At(s, c);
    }
  }

  /** A cell one column and two rows off is never reached. */
  lemma KnightCellSafe(s: State, c: Coord, d: Coord)
    requires Shape(s) && (d.x - c.x == 1 || d.x - c.x == -1) && (d.y - c.y == 2 || d.y - c.y == -2)
    ensures d !in Blast(s, c)
  {
  }

  lemma SafeFromOwnBomb(s: State, i: int, now: int)
    requires 0 <= i < PLAYER_NUM && Escaping(s, i, SafeCell(s.w, s.h, i), Bomb)
    requires |s.bombs| == 1 && s.bombs[0].pos == BombCell(s.w, s.h, i) && Expired(s.bombs[0], now)
    ensures var r := BombPass(s, now, 0); r.bombs == [] && Alive(r, i)
  {
    Geometry(s.w, s.h, i);
    KnightCellSafe(s, BombCell(s.w, s.h, i), SafeCell(s.w, s.h, i));
    PassStep(s, now, 0);
    assert Alive(Explode(s, 0), i);
  }

  lemma RunCons(s: State, e: Event, rest: seq<Event>)
    requires Shape(s) && LegalEvent(e) && forall x :: x in rest ==> LegalEvent(x)
    ensures Run(s, [e] + rest) == Run(Step(s, e), rest)
  {
    assert ([e] + rest)[1..] == rest;
  }

  /** On every board the set-up can produce, every player has a script after which its own first bomb has
      exploded and it is still alive. */
  lemma SurvivesOwnFirstBomb(s: State, random: nat -> nat, i: int, dropped: int, now: int)
    requires Start(s, random) && 0 <= i < PLAYER_NUM && now - dropped >= 3
    ensures forall e :: e in Script(i, dropped, now) ==> LegalEvent(e)
    ensures var armed := Run(s, Script(i, dropped, now)[..5]); var r := Run(s, Script(i, dropped, now));
      && armed.bombs == [BombRecord(BombCell(s.w, s.h, i), dropped)]
      && r == BombPass(armed, now, 0) && r.bombs == [] && Alive(r, i)
  {
    SurvivesStepByStep(s, random, i, dropped, now);
    ScriptRuns(s, i, dropped, now);
  }

  /** The state just before the explosion. */
  function BeforeExplosion(s: State, i: int, dropped: int): State
    requires Shape(s) && 0 <= i < PLAYER_NUM
  {
    var s2 := Drop(Move(s, Inward(i), i), i, dropped);
    Move(Move(Move(s2, Outward(i), i), Away(i), i), Away(i), i)
  }

  /** From the bomb's cell back to the corner and out along the other edge. */
  lemma WalkOut(s: State, i: int)
    requires 0 <= i < PLAYER_NUM && Escaping(s, i, BombCell(s.w, s.h, i), Bomb)
    ensures var r := Move(Move(Move(s, Outward(i), i), Away(i), i), Away(i), i);
      Escaping(r, i, SafeCell(s.w, s.h, i), Bomb) && r.bombs == s.bombs && (r.w, r.h) == (s.w, s.h)
  {
    Geometry(s.w, s.h, i);
    StepOut(s, i, BombCell(s.w, s.h, i), Outward(i), Corner(s.w, s.h, i));
    WalkAway(Move(s, Outward(i), i), i);
  }

  lemma WalkAway(s: State, i: int)
    requires 0 <= i < PLAYER_NUM && Escaping(s, i, Corner(s.w, s.h, i), Bomb)
    ensures var r := Move(Move(s, Away(i), i), Away(i), i);
      Escaping(r, i, SafeCell(s.w, s.h, i), Bomb) && r.bombs == s.bombs && (r.w, r.h) == (s.w, s.h)
  {
    Geometry(s.w, s.h, i);
    StepOut(s, i, Corner(s.w, s.h, i), Away(i), PassCell(s.w, s.h, i));
    StepOut(Move(s, Away(i), i), i, PassCell(s.w, s.h, i), Away(i), SafeCell(s.w, s.h, i));
  }

  lemma SurvivesStepByStep(s: State, random: nat -> nat, i: int, dropped: int, now: int)
    requires Start(s, random) && 0 <= i < PLAYER_NUM && now - dropped >= BOMB_LIFETIME
    ensures var armed := BeforeExplosion(s, i, dropped); var r := BombPass(armed, now, 0);
      && armed.bombs == [BombRecord(BombCell(s.w, s.h, i), dropped)] && r.bombs == [] && Alive(r, i)
  {
    var s1 := Move(s, Inward(i), i);
    StepIn(s, random, i);
    DropInEscape(s1, i, dropped);
    WalkOut(Drop(s1, i, dropped), i);
    SafeFromOwnBomb(BeforeExplosion(s, i, dropped), i, now);
  }

  lemma ScriptRuns(s: State, i: int, dropped: int, now: int)
    requires Shape(s) && 0 <= i < PLAYER_NUM
    ensures forall e :: e in Script(i, dropped, now) ==> LegalEvent(e)
    ensures Run(s, Script(i, dropped, now)[..5]) == BeforeExplosion(s, i, dropped)
    ensures Run(s, Script(i, dropped, now)) == BombPass(BeforeExplosion(s, i, dropped), now, 0)
  {
    var e := Script(i, dropped, now);
    RunPrefix(s, e, i, dropped, []);
    RunPrefix(s, e, i, dropped, [e[5]]);
    RunCons(BeforeExplosion(s, i, dropped), e[5], []);
    assert e[..5] + [] == e[..5] && e[..5] + [e[5]] == e && [e[5]] + [] == [e[5]];
  }

  lemma RunPrefix(s: State, e: seq<Event>, i: int, dropped: int, rest: seq<Event>)
    requires Shape(s) && 0 <= i < PLAYER_NUM && |e| == 6 && e[..5] == Script(i, dropped, 0)[..5]
    requires forall x :: x in rest ==> LegalEvent(x)
    ensures forall x :: x in e[..5] + rest ==> LegalEvent(x)
    ensures Run(s, e[..5] + rest) == Run(BeforeExplosion(s, i, dropped), rest)
  {
    var s1 := Move(s, Inward(i), i);
    var s2 := Drop(s1, i, dropped);
    var s3 := Move(s2, Outward(i), i);
    var s4 := Move(s3, Away(i), i);
    var a, b, c, d := Moves(Inward(i), i), Drops(i, dropped), Moves(Outward(i), i), Moves(Away(i), i);
    RunCons(s4, d, rest);
    RunCons(s3, d, [d] + rest);
    RunCons(s2, c, [d] + ([d] + rest));
    RunCons(s1, b, [c] + ([d] + ([d] + rest)));
    RunCons(s, a, [b] + ([c] + ([d] + ([d] + rest))));
    assert e[..5] == [a, b, c, d, d];
    assert e[..5] + rest == [a] + ([b] + ([c] + ([d] + ([d] + rest))));
  }
}
