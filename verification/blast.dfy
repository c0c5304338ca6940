/** Explosions as sets of cells, and the whole bomb pass built from them. */
module Blasts {
  import opened Board
  import opened Rules
  import opened BombList

  // ---- one blast ----------------------------------------------------------------------

  /** An arm reaches two cells from the bomb unless the first is a wall, which stops it. */
  ghost function Arm(s: State, c: Coord, dx: int, dy: int): set<Coord>
    requires Shape(s)
  {
    var near := Offset(c, dx, dy);
    if On(s, near) && IsWall(At(s, near)) then {near} else {near, Offset(c, 2 * dx, 2 * dy)}
  }

  ghost function Diagonals(c: Coord): set<Coord> {
    {Offset(c, 1, 1), Offset(c, 1, -1), Offset(c, -1, 1), Offset(c, -1, -1)}
  }

  /** The cells a bomb at c reaches on this board (those outside the board have no effect). */
  ghost function Blast(s: State, c: Coord): set<Coord>
    requires Shape(s)
  {
    {c} + Arm(s, c, 0, 1) + Arm(s, c, 0, -1) + Arm(s, c, 1, 0) + Arm(s, c, -1, 0) + Diagonals(c)
  }

  /** No arm covers the first cell of another. */
  lemma ArmsApart(s: State, c: Coord)
    requires Shape(s)
    ensures var down, up, right := Arm(s, c, 0, 1), Arm(s, c, 0, -1), Arm(s, c, 1, 0);
      && Offset(c, 0, 1) !in {c} && Offset(c, 0, -1) !in {c} + down
      && Offset(c, 1, 0) !in {c} + down + up && Offset(c, -1, 0) !in {c} + down + up + right
  {
  }

  function Burnt(t: Tile): Tile {
    if t.DestructibleWall? || IsPlayer(t) then Empty else t
  }

  /** Every cell of the set burns: destructible walls and players' tiles become EMPTY and the players
      standing there die. Nothing else changes. */
  ghost function Burn(s: State, cells: set<Coord>): (r: State)
    requires Shape(s)
    ensures Shape(r) && (r.w, r.h, r.bombs) == (s.w, s.h, s.bombs)
    ensures forall c :: On(s, c) ==> At(r, c) == if c in cells then Burnt(At(s, c)) else At(s, c)
    ensures forall i :: 0 <= i < PLAYER_NUM ==>
      r.players[i] == Player(s.players[i].pos, s.players[i].dead || s.players[i].pos in cells)
  {
    s.(grid := seq(|s.grid|, n requires 0 <= n < |s.grid| =>
                     if CoordOf(s.w, n) in cells then Burnt(s.grid[n]) else s.grid[n]),
       players := seq(PLAYER_NUM, i requires 0 <= i < PLAYER_NUM =>
                     Player(s.players[i].pos, s.players[i].dead || s.players[i].pos in cells)))
  }

  /** Two states with the same cells are the same state. */
  lemma SameCells(r: State, t: State)
    requires Shape(r) && Shape(t) && r == t.(grid := r.grid)
    requires forall c :: On(r, c) ==> At(r, c) == At(t, c)
    ensures r == t
  {
    forall n | 0 <= n < |r.grid|
      ensures r.grid[n] == t.grid[n]
    {
      CoordOfInside(r.w, r.h, n);
      assert At(r, CoordOf(r.w, n)) == At(t, CoordOf(r.w, n));
    }
  }

  lemma BurnBurn(s: State, a: set<Coord>, b: set<Coord>)
    requires Shape(s)
    ensures Burn(Burn(s, a), b) == Burn(s, a + b)
  {
    SameCells(Burn(Burn(s, a), b), Burn(s, a + b));
  }

  lemma BurnNothing(s: State)
    requires Shape(s)
    ensures Burn(s, {}) == s
  {
    SameCells(Burn(s, {}), s);
  }

  lemma BurnKeepsInv(s: State, cells: set<Coord>)
    requires Inv(s)
    ensures Inv(Burn(s, cells))
  {
    var r := Burn(s, cells);
    assert WallLattice(r);
    assert BombsShown(r);
    forall i | 0 <= i < PLAYER_NUM
      ensures !IsWall(At(r, r.players[i].pos))
      ensures Alive(r, i) ==> At(r, r.players[i].pos) == PlayerTile(i) || At(r, r.players[i].pos).Bomb?
    {
      assert r.players[i].pos == s.players[i].pos;
    }
    forall c | On(r, c) && IsPlayer(At(r, c))
      ensures var i := PlayerId(At(r, c)); Alive(r, i) && r.players[i].pos == c
    {
      assert c !in cells;
    }
  }

  // ---- one explosion: `update_explosion`, then the bomb's cell and record go ----------------

  ghost function Explode(s: State, k: nat): (r: State)
    requires Shape(s) && k < |s.bombs|
    ensures Shape(r) && r.bombs == SwapRemove(s.bombs, k) && (r.w, r.h) == (s.w, s.h)
  {
    var c := s.bombs[k].pos;
    Put(Burn(s, Blast(s, c)), c, Empty).(bombs := SwapRemove(s.bombs, k))
  }

  predicate WallAt(s: State, c: Coord)
    requires |s.grid| == s.w * s.h
  {
    On(s, c) && (At(s, c) == IndestructibleWall || At(s, c) == DestructibleWall)
  }

  /** Whether an explosion at c reaches d, from where d lies: the cell itself, its eight neighbours, and the
      four cells two steps along an axis with no wall in between. */
  predicate Reached(s: State, c: Coord, d: Coord)
    requires |s.grid| == s.w * s.h
  {
    var dx, dy := d.x - c.x, d.y - c.y;
    || (-1 <= dx <= 1 && -1 <= dy <= 1)
    || (dx == 2 && dy == 0 && !WallAt(s, Coord(c.x + 1, c.y)))
    || (dx == -2 && dy == 0 && !WallAt(s, Coord(c.x - 1, c.y)))
    || (dx == 0 && dy == 2 && !WallAt(s, Coord(c.x, c.y + 1)))
    || (dx == 0 && dy == -2 && !WallAt(s, Coord(c.x, c.y - 1)))
  }

  lemma ReachedIff(s: State, c: Coord, d: Coord)
    requires Shape(s)
    ensures d in Blast(s, c) <==> Reached(s, c, d)
  {
  }

  /** What an explosion at c makes of a state, player by player and cell by cell. */
  ghost predicate BlastEffect(s: State, r: State, c: Coord)
    requires Shape(s) && Shape(r)
  {
    && (r.w, r.h, r.bombs) == (s.w, s.h, s.bombs)
    && (forall i :: 0 <= i < PLAYER_NUM ==>
      && r.players[i].pos == s.players[i].pos
      && (r.players[i].dead <==> s.players[i].dead || Reached(s, c, s.players[i].pos)))
    && (forall d :: On(s, d) ==>
      At(r, d) == if Reached(s, c, d) && (At(s, d) == DestructibleWall || IsPlayer(At(s, d))) then Empty else At(s, d))
  }

  lemma BlastHasEffect(s: State, c: Coord)
    requires Shape(s)
    ensures BlastEffect(s, Burn(s, Blast(s, c)), c)
  {
    forall d
      ensures d in Blast(s, c) <==> Reached(s, c, d)
    {
      ReachedIff(s, c, d);
    }
  }

  /** What becomes of a state when its k-th bomb explodes. */
  ghost predicate ExplosionEffect(s: State, r: State, k: nat)
    requires Shape(s) && Shape(r) && k < |s.bombs|
  {
    var c := s.bombs[k].pos;
    && (r.w, r.h) == (s.w, s.h)
    && multiset(r.bombs) + multiset{s.bombs[k]} == multiset(s.bombs)
    && (forall i :: 0 <= i < PLAYER_NUM ==>
      && r.players[i].pos == s.players[i].pos
      && (r.players[i].dead <==> s.players[i].dead || Reached(s, c, s.players[i].pos)))
    && (forall d :: On(s, d) ==>
      At(r, d) == if d == c || (Reached(s, c, d) && (At(s, d) == DestructibleWall || IsPlayer(At(s, d)))) then Empty
                  else At(s, d))
  }

  /** Exactly the players on reached cells die; destructible walls and players' tiles on them, and the bomb's
      own cell, become EMPTY; indestructible walls and all other cells stay. */
  lemma ExplodeEffect(s: State, k: nat)
    requires Shape(s) && k < |s.bombs|
    ensures ExplosionEffect(s, Explode(s, k), k)
  {
    BlastHasEffect(s, s.bombs[k].pos);
    SwapRemoveMultiset(s.bombs, k);
  }

  lemma SwapRemovedBombs(bombs: seq<BombRecord>, k: nat)
    requires k < |bombs| && DistinctBombs(bombs)
    ensures DistinctBombs(SwapRemove(bombs, k))
    ensures forall c :: HasBomb(SwapRemove(bombs, k), c) <==> HasBomb(bombs, c) && c != bombs[k].pos
  {
    var r := SwapRemove(bombs, k);
    forall c
      ensures HasBomb(r, c) <==> HasBomb(bombs, c) && c != bombs[k].pos
    {
      if HasBomb(bombs, c) && c != bombs[k].pos {
        var j :| 0 <= j < |bombs| && bombs[j].pos == c;
        assert r[if j == |bombs| - 1 then k else j].pos == c;
      }
    }
  }

  lemma ExplodeKeepsInv(s: State, k: nat)
    requires Inv(s) && k < |s.bombs|
    ensures Inv(Explode(s, k))
  {
    var c := s.bombs[k].pos;
    var b := Burn(s, Blast(s, c));
    BurnKeepsInv(s, Blast(s, c));
    SwapRemovedBombs(s.bombs, k);
    assert HasBomb(s.bombs, c);
    BombRemoved(b, Explode(s, k), k);
  }

  /** Taking a bomb record and its BOMB tile away together, once whoever stood there is dead. */
  lemma BombRemoved(b: State, r: State, k: nat)
    requires Inv(b) && k < |b.bombs| && Shape(r)
    requires forall i :: 0 <= i < PLAYER_NUM && b.players[i].pos == b.bombs[k].pos ==> !Alive(b, i)
    requires r == Put(b, b.bombs[k].pos, Empty).(bombs := SwapRemove(b.bombs, k))
    ensures Inv(r)
  {
    var c := b.bombs[k].pos;
    SwapRemovedBombs(b.bombs, k);
    assert HasBomb(b.bombs, c);
    assert forall d :: On(b, d) ==> At(r, d) == if d == c then Empty else At(b, d);
    assert WallLattice(r) && BombsShown(r);
    forall i | 0 <= i < PLAYER_NUM
      ensures !IsWall(At(r, r.players[i].pos))
      ensures Alive(r, i) ==> At(r, r.players[i].pos) == PlayerTile(i) || At(r, r.players[i].pos).Bomb?
    {
      assert r.players[i] == b.players[i];
    }
    forall d | On(r, d) && IsPlayer(At(r, d))
      ensures var i := PlayerId(At(r, d)); Alive(r, i) && r.players[i].pos == d
    {
      assert d != c;
    }
  }

  // ---- what only ever happens one way -------------------------------------------------

  /** Walls never appear, indestructible ones never go, and nobody comes back to life. */
  ghost predicate OneWay(s: State, r: State) {
    && Shape(s) && Shape(r) && (r.w, r.h) == (s.w, s.h)
    && (forall c :: On(s, c) && IsWall(At(r, c)) ==> At(s, c) == At(r, c))
    && (forall c :: On(s, c) && At(s, c).IndestructibleWall? ==> At(r, c).IndestructibleWall?)
    && (forall i :: 0 <= i < PLAYER_NUM && s.players[i].dead ==> r.players[i].dead)
  }

  lemma OneWayTrans(s: State, r: State, t: State)
    requires OneWay(s, r) && OneWay(r, t)
    ensures OneWay(s, t)
  {
  }

  /** With fewer walls a blast reaches at least as far. */
  lemma BlastGrows(s: State, r: State, c: Coord)
    requires OneWay(s, r)
    ensures Blast(s, c) <= Blast(r, c)
  {
    ArmGrows(s, r, c, 0, 1);
    ArmGrows(s, r, c, 0, -1);
    ArmGrows(s, r, c, 1, 0);
    ArmGrows(s, r, c, -1, 0);
  }

  lemma ArmGrows(s: State, r: State, c: Coord, dx: int, dy: int)
    requires OneWay(s, r)
    ensures Arm(s, c, dx, dy) <= Arm(r, c, dx, dy)
  {
  }

  lemma ExplodeOneWay(s: State, k: nat)
    requires Inv(s) && k < |s.bombs|
    ensures OneWay(s, Explode(s, k))
  {
    assert HasBomb(s.bombs, s.bombs[k].pos);
  }

  // ---- the bomb pass: `update_bombs` -----------------------------------------------------

  ghost function BombPass(s: State, now: int, i: nat): (r: State)
    requires Shape(s)
    ensures Shape(r)
    decreases |s.bombs| - i
  {
    if i >= |s.bombs| then s
    else if Expired(s.bombs[i], now) then BombPass(Explode(s, i), now, i + 1)
    else BombPass(s, now, i + 1)
  }

  lemma PassStep(s: State, now: int, i: nat)
    requires Shape(s) && i < |s.bombs|
    ensures BombPass(s, now, i)
         == BombPass(if Expired(s.bombs[i], now) then Explode(s, i) else s, now, i + 1)
  {
  }

  lemma {:induction false} PassKeepsInv(s: State, now: int, i: nat)
    requires Inv(s)
    ensures Inv(BombPass(s, now, i)) && OneWay(s, BombPass(s, now, i))
    ensures BombPass(s, now, i).bombs == Remaining(s.bombs, now, i)
    decreases |s.bombs| - i
  {
    if i < |s.bombs| {
      PassStep(s, now, i);
      if Expired(s.bombs[i], now) {
        ExplodeKeepsInv(s, i);
        PassKeepsInv(Explode(s, i), now, i + 1);
        ExplodeOneWayOn(s, i, BombPass(s, now, i));
      } else {
        PassKeepsInv(s, now, i + 1);
      }
    }
  }

  lemma ExplodeOneWayOn(s: State, k: nat, r: State)
    requires Inv(s) && k < |s.bombs| && OneWay(Explode(s, k), r)
    ensures OneWay(s, r)
  {
    ExplodeOneWay(s, k);
    OneWayTrans(s, Explode(s, k), r);
  }

  /** The cell lies in the blast, measured on board `s`, of one of the bombs. */
  ghost predicate Hit(s: State, bombs: seq<BombRecord>, c: Coord)
    requires Shape(s)
  {
    bombs != [] && (c in Blast(s, bombs[0].pos) || Hit(s, bombs[1..], c))
  }

  lemma HitCons(s: State, b: BombRecord, rest: seq<BombRecord>, c: Coord)
    requires Shape(s)
    ensures Hit(s, [b] + rest, c) <==> c in Blast(s, b.pos) || Hit(s, rest, c)
  {
    assert ([b] + rest)[1..] == rest;
  }

  lemma {:induction false} HitGrows(s: State, r: State, bombs: seq<BombRecord>, c: Coord)
    requires OneWay(s, r) && Hit(s, bombs, c)
    ensures Hit(r, bombs, c)
  {
    BlastGrows(s, r, bombs[0].pos);
    if c !in Blast(s, bombs[0].pos) {
      HitGrows(s, r, bombs[1..], c);
    }
  }

  ghost predicate Sandwiched(s: State, r: State, e: seq<BombRecord>, p: int)
    requires Shape(s) && Shape(r) && 0 <= p < PLAYER_NUM
  {
    && r.players[p].pos == s.players[p].pos
    && (Hit(s, e, s.players[p].pos) ==> r.players[p].dead)
    && (r.players[p].dead ==> s.players[p].dead || Hit(r, e, s.players[p].pos))
  }

  ghost predicate AllSandwiched(s: State, r: State, e: seq<BombRecord>)
    requires Shape(s) && Shape(r)
  {
    forall p :: 0 <= p < PLAYER_NUM ==> Sandwiched(s, r, e, p)
  }

  /** The sandwich: whoever stands in an exploded bomb's blast on the starting board is dead afterwards,
      and whoever the pass killed stands in an exploded bomb's blast on the final board; no one moves. */
  lemma {:induction false} PassSandwich(s: State, now: int, i: nat)
    requires Inv(s)
    ensures AllSandwiched(s, BombPass(s, now, i), Exploded(s.bombs, now, i))
    decreases |s.bombs| - i
  {
    if i < |s.bombs| {
      PassStep(s, now, i);
      if Expired(s.bombs[i], now) {
        var t := Explode(s, i);
        ExplodeKeepsInv(s, i);
        ExplodedStep(s.bombs, now, i);
        PassSandwich(t, now, i + 1);
        PassKeepsInv(t, now, i + 1);
        SandwichOn(s, i, BombPass(t, now, i + 1), Exploded(t.bombs, now, i + 1));
      } else {
        PassSandwich(s, now, i + 1);
      }
    } else {
      SandwichNone(s);
    }
  }

  lemma SandwichNone(s: State)
    requires Shape(s)
    ensures AllSandwiched(s, s, [])
  {
  }

  lemma ExplodedStep(bombs: seq<BombRecord>, now: int, i: nat)
    requires i < |bombs| && Expired(bombs[i], now)
    ensures Exploded(bombs, now, i) == [bombs[i]] + Exploded(SwapRemove(bombs, i), now, i + 1)
  {
  }

  lemma SandwichOn(s: State, i: nat, r: State, e: seq<BombRecord>)
    requires Inv(s) && i < |s.bombs| && OneWay(Explode(s, i), r) && AllSandwiched(Explode(s, i), r, e)
    ensures AllSandwiched(s, r, [s.bombs[i]] + e)
  {
    ExplodeOneWay(s, i);
    SandwichStep(s, i, r, e);
  }

  lemma SandwichStep(s: State, i: nat, r: State, e: seq<BombRecord>)
    requires Inv(s) && i < |s.bombs|
    requires OneWay(s, Explode(s, i)) && OneWay(Explode(s, i), r) && AllSandwiched(Explode(s, i), r, e)
    ensures AllSandwiched(s, r, [s.bombs[i]] + e)
  {
    forall p | 0 <= p < PLAYER_NUM
      ensures Sandwiched(s, r, [s.bombs[i]] + e, p)
    {
      SandwichOne(s, i, r, e, p);
    }
  }

  lemma SandwichOne(s: State, i: nat, r: State, e: seq<BombRecord>, p: int)
    requires Inv(s) && i < |s.bombs| && 0 <= p < PLAYER_NUM
    requires OneWay(s, Explode(s, i)) && OneWay(Explode(s, i), r) && Sandwiched(Explode(s, i), r, e, p)
    ensures Sandwiched(s, r, [s.bombs[i]] + e, p)
  {
    var t, b, c := Explode(s, i), s.bombs[i], s.players[p].pos;
    assert t.players[p] == Player(c, s.players[p].dead || c in Blast(s, b.pos));
    OneWayTrans(s, t, r);
    HitCons(s, b, e, c);
    HitCons(r, b, e, c);
    if Hit(s, e, c) {
      HitGrows(s, t, e, c);
    }
    BlastGrows(s, r, b.pos);
  }

  /** What a pass with the exploded bombs e may and must do to cell c. */
  ghost predicate Scorched(s: State, r: State, e: seq<BombRecord>, c: Coord)
    requires Shape(s) && Shape(r) && (r.w, r.h) == (s.w, s.h) && On(s, c)
  {
    && (At(r, c) != At(s, c) ==> At(r, c).Empty? && Hit(r, e, c))
    && (Hit(s, e, c) && Burnt(At(s, c)) == Empty ==> At(r, c).Empty?)
    && (HasBomb(e, c) ==> At(r, c).Empty?)
  }

  ghost predicate AllScorched(s: State, r: State, e: seq<BombRecord>)
    requires Shape(s) && Shape(r) && (r.w, r.h) == (s.w, s.h)
  {
    forall c :: On(s, c) ==> Scorched(s, r, e, c)
  }

  lemma ScorchedStep(s: State, i: nat, r: State, e: seq<BombRecord>, c: Coord)
    requires Inv(s) && i < |s.bombs| && On(s, c)
    requires OneWay(s, Explode(s, i)) && OneWay(Explode(s, i), r) && Scorched(Explode(s, i), r, e, c)
    ensures Scorched(s, r, [s.bombs[i]] + e, c)
  {
    var t, b := Explode(s, i), s.bombs[i];
    OneWayTrans(s, t, r);
    HitCons(s, b, e, c);
    HitCons(r, b, e, c);
    BlastGrows(s, r, b.pos);
    if Hit(s, e, c) {
      HitGrows(s, t, e, c);
    }
    if HasBomb([b] + e, c) && c != b.pos {
      var k :| 0 <= k < |[b] + e| && ([b] + e)[k].pos == c;
      assert e[k - 1].pos == c;
    }
  }

  /** The sandwich for cells: only cells in an exploded bomb's blast on the final board change, and only to
      EMPTY; destructible walls and players' tiles in a blast on the starting board, and the bombs that
      exploded, are gone. */
  lemma {:induction false} PassScorches(s: State, now: int, i: nat)
    requires Inv(s)
    ensures BombPass(s, now, i).w == s.w && BombPass(s, now, i).h == s.h
    ensures AllScorched(s, BombPass(s, now, i), Exploded(s.bombs, now, i))
    decreases |s.bombs| - i
  {
    if i < |s.bombs| {
      if Expired(s.bombs[i], now) {
        var t := Explode(s, i);
        ExplodeKeepsInv(s, i);
        ExplodeOneWay(s, i);
        PassScorches(t, now, i + 1);
        PassKeepsInv(t, now, i + 1);
        forall c | On(s, c)
          ensures Scorched(s, BombPass(s, now, i), Exploded(s.bombs, now, i), c)
        {
          ScorchedStep(s, i, BombPass(t, now, i + 1), Exploded(t.bombs, now, i + 1), c);
        }
      } else {
        PassScorches(s, now, i + 1);
      }
    }
  }
}
