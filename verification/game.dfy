/** The game object of src/model.c: a flat grid, four players and a growable bomb array, all updated in place.
    Each method is tied to the function of `Rules` or `Blasts` that says what it does to the state. */
module Engine {
  import opened Board
  import opened Rules
  import opened BombList
  import opened Blasts
  import opened Runs
  import opened Setup
  import opened Diffs
  import opened Outcome

  class Game {
    const w: nat
    const h: nat
    const mode: GameMode
    const grid: array<Tile>
    const players: array<Player>
    var bombs: array<BombRecord>
    var bombCount: nat

    ghost predicate Wf()
      reads this, bombs
    {
      && grid.Length == w * h
      && players.Length == PLAYER_NUM
      && bombCount <= bombs.Length
    }

    ghost function S(): State
      requires Wf()
      reads this, grid, players, bombs
    {
      State(w, h, grid[..], players[..], bombs[..bombCount])
    }

    ghost predicate Valid()
      reads this, grid, players, bombs
    {
      Wf() && Inv(S())
    }

    /** The set-up for a size already made odd and legal: calloc'ed board, content, players, no bombs. */
    constructor (width: nat, height: nat, gameMode: GameMode, random: nat -> nat)
      requires 9 <= width && 9 <= height && width % 2 == 1 && height % 2 == 1
      ensures Valid() && Start(S(), random)
      ensures w == width && h == height && mode == gameMode
      ensures fresh(grid) && fresh(players) && fresh(bombs)
    {
      w, h, mode := width, height, gameMode;
      grid := new Tile[width * height](_ => Empty);
      players := new Player[PLAYER_NUM](_ => Player(Coord(0, 0), false));
      bombs := new BombRecord[0];
      bombCount := 0;
      new;
      InitContent(random);
      InitPlayers(random);
      StartInv(S(), random);
    }

    function GetGrid(c: Coord): (t: Tile)
      requires Wf() && Inside(w, h, c)
      reads this, grid, players, bombs
      ensures t == At(S(), c)
    {
      grid[Index(w, h, c)]
    }

    method SetGrid(c: Coord, t: Tile)
      requires Wf() && Inside(w, h, c) && |S().grid| == w * h
      modifies grid
      ensures Wf() && S() == Put(old(S()), c, t)
    {
      grid[Index(w, h, c)] := t;
    }

    // ---- `init_game_board_content`: each loop of the source is one method ---------------------

    method Draw(c: Coord, random: nat -> nat, drawn: nat) returns (next: nat)
      requires Wf() && Inside(w, h, c) && |S().grid| == w * h && 9 <= w && drawn == DrawIndex(w, h, c)
      modifies grid
      ensures Wf() && S() == Put(old(S()), c, Drawn(w, h, c, random)) && next == drawn + 1
    {
      SetGrid(c, DrawWall(random(drawn)));
      next := drawn + 1;
    }

    method DrawPair(c: Coord, d: Coord, random: nat -> nat, drawn: nat) returns (next: nat)
      requires Wf() && Inside(w, h, c) && Inside(w, h, d) && |S().grid| == w * h && 9 <= w
      requires drawn == DrawIndex(w, h, c) && drawn + 1 == DrawIndex(w, h, d)
      modifies grid
      ensures Wf() && Filled(old(S()), S(), e => e == c || e == d, random) && next == drawn + 2
    {
      next := Draw(c, random, drawn);
      next := Draw(d, random, next);
    }

    method FillOuterRows(random: nat -> nat) returns (next: nat)
      requires Wf() && 9 <= w && 9 <= h
      modifies grid
      ensures Wf() && Filled(old(S()), S(), c => OuterRow(w, h, c), random) && next == SecondBase(w)
    {
      next := 0;
      for x := 3 to w - 3
        invariant Wf() && Filled(old(S()), S(), c => OuterRow(w, h, c) && c.x < x, random)
        invariant next == 2 * (x - 3)
      {
        next := DrawPair(Coord(x, 0), Coord(x, h - 1), random, next);
      }
    }

    method FillSecondRows(random: nat -> nat, drawn: nat) returns (next: nat)
      requires Wf() && 9 <= w && 9 <= h && w % 2 == 1 && drawn == SecondBase(w)
      modifies grid
      ensures Wf() && Filled(old(S()), S(), c => SecondRow(w, h, c), random) && next == ThirdBase(w)
    {
      next := drawn;
      var x := 2;
      while x < w - 2
        invariant 2 <= x <= w - 1 && x % 2 == 0
        invariant Wf() && Filled(old(S()), S(), c => SecondRow(w, h, c) && c.x < x, random)
        invariant next == SecondBase(w) + x - 2
      {
        ghost var m := S();
        next := DrawPair(Coord(x, 1), Coord(x, h - 2), random, next);
        forall c {
          SecondRowGrows(w, h, x, c);
        }
        FilledBoth(old(S()), m, S(), c => SecondRow(w, h, c) && c.x < x, c => c == Coord(x, 1) || c == Coord(x, h - 2),
                   c => SecondRow(w, h, c) && c.x < x + 2, random);
        x := x + 2;
      }
    }

    method FillThirdRows(random: nat -> nat, drawn: nat) returns (next: nat)
      requires Wf() && 9 <= w && 9 <= h && drawn == ThirdBase(w)
      modifies grid
      ensures Wf() && Filled(old(S()), S(), c => ThirdRow(w, h, c), random) && next == InnerBase(w, 3)
    {
      next := drawn;
      for x := 1 to w - 1
        invariant Wf() && Filled(old(S()), S(), c => ThirdRow(w, h, c) && c.x < x, random)
        invariant next == ThirdBase(w) + 2 * (x - 1)
      {
        next := DrawPair(Coord(x, 2), Coord(x, h - 3), random, next);
      }
    }

    method DrawInRow(y: nat, step: nat, x: nat, random: nat -> nat, drawn: nat, ghost s: State) returns (next: nat)
      requires Wf() && 3 <= y < h - 3 && 9 <= w && x < w && InRow(w, y, x, step, drawn) && (step == 2 ==> x % 2 == 0)
      requires s.w == w && Filled(s, S(), c => RowCell(y, c) && c.x < x, random)
      modifies grid
      ensures Wf() && Filled(s, S(), c => RowCell(y, c) && c.x < x + step, random) && InRow(w, y, x + step, step, next)
    {
      ghost var m := S();
      NextInRow(w, h, y, x, step, drawn);
      next := Draw(Coord(x, y), random, drawn);
      FilledCell(s, m, S(), y, step, x, random);
    }

    method FillInnerRow(y: nat, step: nat, random: nat -> nat, drawn: nat) returns (next: nat)
      requires Wf() && 3 <= y < h - 3 && 9 <= w && w % 2 == 1 && step == if y % 2 == 0 then 1 else 2
      requires drawn == InnerBase(w, y)
      modifies grid
      ensures Wf() && Filled(old(S()), S(), c => RowCell(y, c), random) && next == InnerBase(w, y + 1)
    {
      next := drawn;
      var x := 0;
      while x < w
        invariant 0 <= x <= w + 1 && (step == 2 ==> x % 2 == 0) && (step == 1 ==> x <= w)
        invariant Wf() && Filled(old(S()), S(), c => RowCell(y, c) && c.x < x, random)
        invariant InRow(w, y, x, step, next)
      {
        next := DrawInRow(y, step, x, random, next, old(S()));
        x := x + step;
      }
      RowDone(w, y, x, step, next);
    }

    method FillInnerRows(random: nat -> nat, drawn: nat) returns (next: nat)
      requires Wf() && 9 <= w && 9 <= h && w % 2 == 1 && drawn == InnerBase(w, 3)
      modifies grid
      ensures Wf() && Filled(old(S()), S(), c => InnerRow(w, h, c), random)
    {
      next := drawn;
      for y := 3 to h - 3
        invariant Wf() && Filled(old(S()), S(), c => InnerRow(w, h, c) && c.y < y, random)
        invariant next == InnerBase(w, y)
      {
        next := FillInnerRow(y, if y % 2 == 0 then 1 else 2, random, next);
      }
    }

    method PlaceWallColumn(x: nat)
      requires Wf() && |S().grid| == w * h && x < w && x % 2 == 1 && 9 <= h && h % 2 == 1
      modifies grid
      ensures Wf() && WalledColumn(old(S()), S(), x, h)
    {
      ghost var s := S();
      WalledColumnEmpty(s, x);
      var y := 1;
      while y < h - 1
        invariant 1 <= y && y % 2 == 1
        invariant Wf() && WalledColumn(s, S(), x, y)
      {
        WalledColumnGrows(s, S(), x, y);
        SetGrid(Coord(x, y), IndestructibleWall);
        y := y + 2;
      }
    }

    method PlaceIndestructibleWalls()
      requires Wf() && |S().grid| == w * h && 9 <= w && 9 <= h && w % 2 == 1 && h % 2 == 1
      modifies grid
      ensures Wf() && WalledUpTo(old(S()), S(), w)
    {
      ghost var s := S();
      WalledUpToEmpty(s);
      var x := 1;
      while x < w - 1
        invariant 1 <= x && x % 2 == 1
        invariant Wf() && WalledUpTo(s, S(), x)
      {
        ghost var m := S();
        PlaceWallColumn(x);
        WalledUpToGrows(s, m, S(), x);
        x := x + 2;
      }
    }

    method InitContent(random: nat -> nat)
      requires Wf() && 9 <= w && 9 <= h && w % 2 == 1 && h % 2 == 1
      requires forall n :: 0 <= n < grid.Length ==> grid[n] == Empty
      modifies grid
      ensures Wf() && S() == old(S()).(grid := S().grid)
      ensures |S().grid| == w * h && forall c :: On(S(), c) ==>
        Laid(w, h, c, At(S(), c), random) && Furnished(w, h, c, At(S(), c), random)
    {
      PlaceIndestructibleWalls();
      var drawn := FillOuterRows(random);
      drawn := FillSecondRows(random, drawn);
      drawn := FillThirdRows(random, drawn);
      drawn := FillInnerRows(random, drawn);
      forall c | On(S(), c)
        ensures Laid(w, h, c, At(S(), c), random) && Furnished(w, h, c, At(S(), c), random)
      {
        LaidFurnishes(w, h, c, At(S(), c), random);
      }
    }

    method InitPlayer(i: nat)
      requires Wf() && 9 <= w && 9 <= h && i < PLAYER_NUM && |S().grid| == w * h
      modifies grid, players
      ensures Wf() && Inside(w, h, Corner(w, h, i))
      ensures S() == Put(old(S()).(players := old(S()).players[i := Player(Corner(w, h, i), false)]),
                         Corner(w, h, i), PlayerTile(i))
    {
      var y := if i < 2 then 0 else h - 1;
      var x := (w - i % 2) % w;
      assert x == Corner(w, h, i).x by { QuotientUnique(w, w, 1, 0); QuotientUnique(w - 1, w, 0, w - 1); }
      players[i] := Player(Coord(x, y), false);
      assert players[..] == old(S()).players[i := Player(Corner(w, h, i), false)];
      SetGrid(Coord(x, y), PlayerTile(i));
    }

    method InitPlayers(random: nat -> nat)
      requires Wf() && 9 <= w && 9 <= h && w % 2 == 1 && h % 2 == 1 && bombCount == 0
      requires |S().grid| == w * h && forall c :: On(S(), c) ==> Laid(w, h, c, At(S(), c), random)
      modifies grid, players
      ensures Wf() && Start(S(), random)
    {
      for i := 0 to PLAYER_NUM
        invariant Wf() && |S().grid| == w * h
        invariant forall j :: 0 <= j < i ==> Inside(w, h, Corner(w, h, j))
        invariant forall j :: 0 <= j < i ==> players[j] == Player(Corner(w, h, j), false)
        invariant forall j :: 0 <= j < i ==> At(S(), Corner(w, h, j)) == PlayerTile(j)
        invariant forall c :: On(S(), c) && !IsCorner(w, h, c) ==> At(S(), c) == At(old(S()), c)
      {
        CornersApart(w, h, i);
        InitPlayer(i);
        assert IsCorner(w, h, Corner(w, h, i));
      }
      assert Shape(S()) && LegalSize(S());
    }

    // ---- moves, bombs, deaths ------------------------------------------------------------------

    method PerformMove(a: Action, i: int)
      requires Valid() && 0 <= i < PLAYER_NUM
      modifies grid, players
      ensures Valid() && S() == Move(old(S()), a, i)
    {
      MoveKeepsInv(S(), a, i);
      if players[i].dead {
        return;
      }
      var from := players[i].pos;
      var c := NextPosition(a, from);
      if !Inside(w, h, c) {
        return;
      }
      var t := GetGrid(c);
      if t.Bomb? || IsWall(t) || IsPlayer(t) {
        return;
      }
      players[i] := players[i].(pos := c);
      SetGrid(c, PlayerTile(i));
      if !GetGrid(from).Bomb? {
        SetGrid(from, Empty);
      }
    }

    /** `realloc` of the bomb array: the live entries stay. */
    method GrowBombs(capacity: nat)
      requires Wf() && bombCount <= capacity
      modifies this`bombs
      ensures Wf() && fresh(bombs) && bombs.Length == capacity
      ensures bombs[..bombCount] == old(bombs[..bombCount])
    {
      var list := new BombRecord[capacity](_ => BombRecord(Coord(0, 0), 0));
      forall k | 0 <= k < bombCount {
        list[k] := bombs[k];
      }
      bombs := list;
    }

    method PlaceBomb(i: int, now: int)
      requires Valid() && 0 <= i < PLAYER_NUM
      modifies this, grid, bombs
      ensures Valid() && S() == Drop(old(S()), i, now)
      ensures bombs == old(bombs) || fresh(bombs)
    {
      ghost var s := S();
      DropKeepsInv(s, i, now);
      if bombCount == bombs.Length {
        GrowBombs(if bombs.Length == 0 then 4 else bombs.Length * 2);
      }
      assert S() == s;
      var c := players[i].pos;
      if GetGrid(c).Bomb? {
        return;
      }
      bombs[bombCount] := BombRecord(c, now);
      bombCount := bombCount + 1;
      assert S() == s.(bombs := s.bombs + [BombRecord(c, now)]);
      SetGrid(c, Bomb);
    }

    /** `set_player_dead`: the scan stops at the first tile of this player, which is its only one. */
    method SetPlayerDead(i: int)
      requires Valid() && 0 <= i < PLAYER_NUM
      modifies grid, players
      ensures Valid() && S() == Evict(old(S()), i)
    {
      ghost var s := S();
      EvictKeepsInv(s, i);
      var n := 0;
      while n < w * h
        invariant 0 <= n <= w * h
        invariant S() == s
        invariant forall m :: 0 <= m < n ==> grid[m] != PlayerTile(i)
      {
        CoordOfInside(w, h, n);
        var c := CoordOf(w, n);
        if GetGrid(c) == PlayerTile(i) {
          SetGrid(c, Empty);
          break;
        }
        n := n + 1;
      }
      players[i] := players[i].(dead := true);
      OneTilePerPlayer(s, i, n);
      assert S().grid == Evict(s, i).grid;
    }

    /** The loop that `apply_explosion_effect` and `update_explosion` share: whoever stands at c dies. */
    method KillPlayersAt(c: Coord)
      requires players.Length == PLAYER_NUM
      modifies players
      ensures forall j :: 0 <= j < PLAYER_NUM ==>
        players[j] == old(players[j]).(dead := old(players[j].dead) || old(players[j].pos) == c)
    {
      for i := 0 to PLAYER_NUM
        invariant forall j :: 0 <= j < PLAYER_NUM ==>
          players[j] == old(players[j]).(dead := old(players[j].dead) || (j < i && old(players[j].pos) == c))
      {
        if players[i].pos == c {
          players[i] := players[i].(dead := true);
        }
      }
    }

    /** `apply_explosion_effect`: burns one cell and tells whether a wall stopped the blast there. */
    method ApplyExplosionEffect(c: Coord) returns (impact: bool)
      requires Valid()
      modifies grid, players
      ensures Valid() && S() == Burn(old(S()), {c})
      ensures Inside(w, h, c) && At(old(S()), c) in {DestructibleWall, Player1, Player2, Player3, Player4} ==> At(S(), c) == Empty
      ensures impact <==> Inside(w, h, c) && IsWall(At(old(S()), c))
    {
      ghost var s := S();
      BurnKeepsInv(s, {c});
      if !Inside(w, h, c) {
        SameCells(Burn(s, {c}), s);
        return false;
      }
      impact := false;
      var t := GetGrid(c);
      if t.DestructibleWall? {
        SetGrid(c, Empty);
        impact := true;
      } else if IsPlayer(t) {
        var id := PlayerId(t);
        players[id] := players[id].(dead := true);
        SetGrid(c, Empty);
      } else if t.IndestructibleWall? {
        impact := true;
      }
      assert grid[..] == Put(s, c, Burnt(t)).grid;
      if !impact {
        KillPlayersAt(c);
      }
      assert players[..] == Burn(s, {c}).players;
      SameCells(S(), Burn(s, {c}));
    }

    /** One arm of `update_explosion`, the bomb's own cell first. The arm reads the grid that the
        cells burnt before it have already changed. */
    method ExplodeArm(c: Coord, dx: int, dy: int)
      requires Valid() && Inside(w, h, c) && !IsWall(At(S(), c))
      requires IsDirection(dx, dy)
      modifies grid, players
      ensures Valid() && S() == Burn(old(S()), {c} + Arm(old(S()), c, dx, dy))
    {
      ghost var s := S();
      ghost var near, far := Offset(c, dx, dy), Offset(c, 2 * dx, 2 * dy);
      BurnNothing(s);
      var k := 0;
      while k <= 2
        invariant 0 <= k <= 3
        invariant Valid() && S() == Burn(s, Covered(c, near, far, k))
        invariant k >= 2 ==> !(On(s, near) && IsWall(At(s, near)))
      {
        var cell := Offset(c, k * dx, k * dy);
        assert cell == if k == 0 then c else if k == 1 then near else far;
        BurnBurn(s, Covered(c, near, far, k), {cell});
        assert Covered(c, near, far, k) + {cell} == Covered(c, near, far, k + 1);
        var impact := ApplyExplosionEffect(cell);
        if impact {
          assert {c} + Arm(s, c, dx, dy) == Covered(c, near, far, k + 1);
          return;
        }
        k := k + 1;
      }
      assert {c} + Arm(s, c, dx, dy) == Covered(c, near, far, 3);
    }

    ghost function Covered(c: Coord, near: Coord, far: Coord, k: int): set<Coord> {
      if k <= 0 then {} else if k == 1 then {c} else if k == 2 then {c, near} else {c, near, far}
    }

    /** The first loop of `update_explosion`: the bomb's own cell shows BOMB, so only players change. */
    method KillPlayersOnBomb(c: Coord)
      requires Valid() && Inside(w, h, c) && At(S(), c).Bomb?
      modifies players
      ensures Valid() && S() == Burn(old(S()), {c})
    {
      ghost var s := S();
      BurnKeepsInv(s, {c});
      KillPlayersAt(c);
      assert players[..] == Burn(s, {c}).players;
      SameCells(S(), Burn(s, {c}));
    }

    /** `update_explosion`: whatever the order of the arms and what they overwrite, exactly the blast set,
        measured on the board as it was, burns. */
    method UpdateExplosion(c: Coord)
      requires Valid() && Inside(w, h, c) && At(S(), c).Bomb?
      modifies grid, players
      ensures Valid() && S() == Burn(old(S()), Blast(old(S()), c))
      ensures BlastEffect(old(S()), S(), c)
    {
      ghost var s := S();
      BlastHasEffect(s, c);
      KillPlayersOnBomb(c);
      ArmsApart(s, c);
      ghost var down, up := Arm(s, c, 0, 1), Arm(s, c, 0, -1);
      ghost var right, left := Arm(s, c, 1, 0), Arm(s, c, -1, 0);
      BurnArm(c, 0, 1, s, {c});
      BurnArm(c, 0, -1, s, {c} + down);
      BurnArm(c, 1, 0, s, {c} + down + up);
      BurnArm(c, -1, 0, s, {c} + down + up + right);
      BurnDiagonals(c, s, {c} + down + up + right + left);
    }

    method BurnDiagonals(c: Coord, ghost s: State, ghost done: set<Coord>)
      requires Inv(s) && Valid() && S() == Burn(s, done)
      modifies grid, players
      ensures Valid() && S() == Burn(s, done + Diagonals(c))
    {
      BurnDiagonal(Offset(c, 1, 1), s, done);
      BurnDiagonal(Offset(c, 1, -1), s, done + {Offset(c, 1, 1)});
      BurnDiagonal(Offset(c, -1, 1), s, done + {Offset(c, 1, 1)} + {Offset(c, 1, -1)});
      BurnDiagonal(Offset(c, -1, -1), s, done + {Offset(c, 1, 1)} + {Offset(c, 1, -1)} + {Offset(c, -1, 1)});
      assert done + {Offset(c, 1, 1)} + {Offset(c, 1, -1)} + {Offset(c, -1, 1)} + {Offset(c, -1, -1)}
          == done + Diagonals(c);
    }

    /** An arm, seen from the board `s` before the explosion of which the cells `done` have burnt. */
    method BurnArm(c: Coord, dx: int, dy: int, ghost s: State, ghost done: set<Coord>)
      requires Inv(s) && On(s, c) && At(s, c).Bomb? && (s.w, s.h) == (w, h)
      requires IsDirection(dx, dy)
      requires c in done && Offset(c, dx, dy) !in done
      requires Valid() && S() == Burn(s, done)
      modifies grid, players
      ensures Valid() && S() == Burn(s, done + Arm(s, c, dx, dy))
    {
      ExplodeArm(c, dx, dy);
      BurnBurn(s, done, {c} + Arm(s, c, dx, dy));
      assert done + Arm(s, c, dx, dy) == done + ({c} + Arm(s, c, dx, dy));
    }

    method BurnDiagonal(c: Coord, ghost s: State, ghost done: set<Coord>)
      requires Inv(s) && Valid() && S() == Burn(s, done)
      modifies grid, players
      ensures Valid() && S() == Burn(s, done + {c})
    {
      var _ := ApplyExplosionEffect(c);
      BurnBurn(s, done, {c});
    }

    /** The body of the loop of `update_bombs` for an expired bomb. */
    method ExplodeEntry(i: nat)
      requires Valid() && i < bombCount
      modifies this`bombCount, grid, players, bombs
      ensures Valid() && S() == Explode(old(S()), i)
      ensures ExplosionEffect(old(S()), S(), i)
    {
      ghost var s := S();
      var c := bombs[i].pos;
      assert s.bombs[i].pos == c && HasBomb(s.bombs, c);
      UpdateExplosion(c);
      SetGrid(c, Empty);
      bombCount := bombCount - 1;
      bombs[i] := bombs[bombCount];
      assert bombs[..bombCount] == SwapRemove(s.bombs, i);
      ExplodeKeepsInv(s, i);
      ExplodeEffect(s, i);
    }

    /** `update_bombs`: an exploded entry is overwritten by the last one and the index still advances. */
    method UpdateBombs(now: int)
      requires Valid()
      modifies this`bombCount, grid, players, bombs
      ensures Valid() && S() == BombPass(old(S()), now, 0)
    {
      ghost var reached := S();
      ghost var goal := BombPass(reached, now, 0);
      var i := 0;
      while i < bombCount
        invariant Valid() && 0 <= i && S() == reached
        invariant BombPass(reached, now, i) == goal
        decreases bombCount - i
      {
        PassStep(reached, now, i);
        reached := if Expired(reached.bombs[i], now) then Explode(reached, i) else reached;
        if now - bombs[i].placed >= BOMB_LIFETIME {
          ExplodeEntry(i);
        }
        i := i + 1;
      }
    }

    // ---- the tick and the end of the game ------------------------------------------------------

    /** `get_game_board`: a copy of the grid. */
    method CopyGrid() returns (copy: array<Tile>)
      ensures copy[..] == grid[..] && fresh(copy)
    {
      copy := new Tile[grid.Length](_ => Empty);
      for n := 0 to grid.Length
        invariant copy[..n] == grid[..n]
      {
        copy[n] := grid[n];
      }
    }

    /** The action loop of `update_game_board`. */
    method Perform(actions: seq<PlayerAction>, clock: seq<int>)
      requires Valid() && LegalActions(actions) && |clock| == |actions|
      modifies this, grid, players, bombs
      ensures Valid() && S() == ActUpTo(old(S()), actions, clock, |actions|)
      ensures bombs == old(bombs) || fresh(bombs)
    {
      ghost var s := S();
      ghost var reached := s;
      for i := 0 to |actions|
        invariant Valid() && S() == reached
        invariant reached == ActUpTo(s, actions, clock, i)
        invariant bombs == old(bombs) || fresh(bombs)
      {
        reached := ActOne(reached, actions[i], clock[i]);
        PerformOne(actions[i], clock[i]);
      }
    }

    method PerformOne(act: PlayerAction, now: int)
      requires Valid() && 0 <= act.id < PLAYER_NUM
      modifies this, grid, players, bombs
      ensures Valid() && S() == ActOne(old(S()), act, now)
      ensures bombs == old(bombs) || fresh(bombs)
    {
      if act.action.PlaceBomb? {
        PlaceBomb(act.id, now);
      } else {
        PerformMove(act.action, act.id);
      }
    }

    /** `update_game_board`: the actions in order, one bomb pass, and what has changed since. */
    method UpdateGameBoard(actions: seq<PlayerAction>, clock: seq<int>, now: int) returns (diffs: array<TileDiff>)
      requires Valid() && LegalActions(actions) && |clock| == |actions|
      modifies this, grid, players, bombs
      ensures Valid() && S() == Tick(old(S()), actions, clock, now)
      ensures diffs[..] == Diff(w, S().grid, old(S()).grid, |S().grid|)
    {
      var before := CopyGrid();
      Perform(actions, clock);
      UpdateBombs(now);
      diffs := GetDiffWithBoard(w, grid, before);
    }

    /** `is_game_over` */
    method IsGameOver() returns (over: bool)
      requires Wf()
      ensures over <==> GameOver(mode, players[..])
    {
      if mode.SOLO? {
        var alive := 0;
        for i := 0 to PLAYER_NUM
          invariant alive == CountAlive(players[..], i)
        {
          if !players[i].dead {
            alive := alive + 1;
          }
        }
        FewAlive(players[..]);
        return alive <= 1;
      }
      var team1Dead := players[0].dead && players[3].dead;
      var team2Dead := players[1].dead && players[2].dead;
      TeamsDead(players[..]);
      return team1Dead || team2Dead;
    }

    /** `get_winner_solo`, which before the end of the game may name any living player. */
    method GetWinnerSolo() returns (winner: int)
      requires Wf()
      ensures winner == SoloAnswer(players[..], 0)
      ensures GameOver(SOLO, players[..]) ==> SoloWinner(players[..], winner)
    {
      AnswersAreWinners(players[..]);
      for i := 0 to PLAYER_NUM
        invariant SoloAnswer(players[..], i) == SoloAnswer(players[..], 0)
      {
        for j := 0 to PLAYER_NUM
          invariant forall m :: 0 <= m < j && i != m ==> players[i].dead || !players[m].dead
        {
          if i != j && !players[i].dead && players[j].dead {
            return i;
          }
        }
      }
      return -1;
    }

    /** `get_winner_team` */
    method GetWinnerTeam() returns (winner: int)
      requires Wf()
      ensures winner == -1 <==> !GameOver(TEAM, players[..])
      ensures GameOver(TEAM, players[..]) ==> TeamWinner(players[..], winner)
      ensures winner == 0 ==> !TeamDead(players[..], 0)
    {
      TeamsDead(players[..]);
      if players[0].dead && players[3].dead {
        return 1;
      }
      if players[1].dead && players[2].dead {
        return 0;
      }
      return -1;
    }
  }

  /** `init_game_board`, then the players: sizes are made odd, two rows and columns are kept for the border, small boards refused. */
  method InitBoard(width: int, height: int, mode: GameMode, random: nat -> nat) returns (g: Game?)
    ensures g == null <==> width <= 10 || height <= 10
    ensures g != null ==> fresh(g) && g.Valid() && Start(g.S(), random) && g.mode == mode
    ensures g != null ==> g.w == width - (if width % 2 == 0 then 3 else 2)
    ensures g != null ==> g.h == height - (if height % 2 == 0 then 3 else 2)
  {
    var boardWidth := if width % 2 == 0 then width - 1 else width;
    var boardHeight := if height % 2 == 0 then height - 1 else height;
    if boardWidth < MIN_GAMEBOARD_WIDTH || boardHeight < MIN_GAMEBOARD_HEIGHT {
      return null;
    }
    g := new Game(boardWidth - 2, boardHeight - 2, mode, random);
  }

  function CountAlive(players: seq<Player>, n: nat): nat
    requires n <= |players|
  {
    if n == 0 then 0 else CountAlive(players, n - 1) + if players[n - 1].dead then 0 else 1
  }

  lemma TeamsDead(players: seq<Player>)
    requires |players| == PLAYER_NUM
    ensures TeamDead(players, 0) <==> players[0].dead && players[3].dead
    ensures TeamDead(players, 1) <==> players[1].dead && players[2].dead
  {
    assert TeamOf(0) == TeamOf(3) == 0 && TeamOf(1) == TeamOf(2) == 1;
  }

  lemma FewAlive(players: seq<Player>)
    requires |players| == PLAYER_NUM
    ensures CountAlive(players, PLAYER_NUM) <= 1 <==> GameOver(SOLO, players)
  {
    assert CountAlive(players, 1) == if players[0].dead then 0 else 1;
    assert CountAlive(players, 2) == CountAlive(players, 1) + if players[1].dead then 0 else 1;
    assert CountAlive(players, 3) == CountAlive(players, 2) + if players[2].dead then 0 else 1;
  }

  /** A living player is shown on at most one cell, so clearing the first such cell clears them all. */
  lemma OneTilePerPlayer(s: State, i: int, n: nat)
    requires Inv(s) && 0 <= i < PLAYER_NUM && n <= |s.grid|
    requires forall m :: 0 <= m < n ==> s.grid[m] != PlayerTile(i)
    requires n < |s.grid| ==> s.grid[n] == PlayerTile(i)
    ensures forall m :: 0 <= m < |s.grid| ==> (s.grid[m] == PlayerTile(i) <==> m == n)
  {
    forall m | 0 <= m < |s.grid| && s.grid[m] == PlayerTile(i)
      ensures m == n
    {
      CoordOfInside(s.w, s.h, m);
      CoordOfInside(s.w, s.h, n);
      assert IsPlayer(At(s, CoordOf(s.w, m))) && IsPlayer(At(s, CoordOf(s.w, n)));
    }
  }
}
