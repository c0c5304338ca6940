/** How many cells one server tick can change: two a move, one a bomb drop, nine an explosion, or seven an
    explosion and the players' tiles it burns. */
module Changes {
  import opened Board
  import opened Rules
  import opened BombList
  import opened Blasts

  /** The flat indices at which two boards differ. */
  ghost function Changed(a: seq<Tile>, b: seq<Tile>): set<nat>
    requires |a| == |b|
  {
    set n: nat | n < |a| && a[n] != b[n]
  }

  lemma {:induction false} SubsetSize<T>(a: set<T>, b: set<T>)
    requires a <= b
    ensures |a| <= |b|
  {
    if a != {} {
      var x :| x in a;
      SubsetSize(a - {x}, b - {x});
    }
  }

  lemma ChangedTwice(a: seq<Tile>, b: seq<Tile>, c: seq<Tile>)
    requires |a| == |b| == |c|
    ensures |Changed(a, c)| <= |Changed(a, b)| + |Changed(b, c)|
  {
    SubsetSize(Changed(a, c), Changed(a, b) + Changed(b, c));
  }

  /** Indices whose cells all occur in a list of cells are no more than the list is long. */
  lemma {:induction false} CoveredBy(w: nat, h: nat, indices: set<nat>, cells: seq<Coord>)
    requires forall n :: n in indices ==> n < w * h
    requires 0 < w && forall n :: n in indices ==> CoordOf(w, n) in cells
    ensures |indices| <= |cells|
  {
    if cells == [] {
      assert indices == {};
    } else {
      var c := cells[0];
      var rest := set n | n in indices && CoordOf(w, n) != c;
      CoveredBy(w, h, rest, cells[1..]);
      if n :| n in indices && CoordOf(w, n) == c {
        forall m | m in indices && m !in rest
          ensures m == n
        {
          CoordOfInside(w, h, n);
          CoordOfInside(w, h, m);
        }
        assert indices == rest + {n};
      } else {
        assert indices == rest;
      }
    }
  }

  /** Two states that agree outside a list of cells differ in no more places than the list is long. */
  lemma ChangedWithin(s: State, r: State, cells: seq<Coord>)
    requires Shape(s) && Shape(r) && (r.w, r.h) == (s.w, s.h)
    requires forall c :: On(s, c) && c !in cells ==> At(r, c) == At(s, c)
    ensures |Changed(s.grid, r.grid)| <= |cells|
  {
    forall n | n in Changed(s.grid, r.grid)
      ensures CoordOf(s.w, n) in cells
    {
      CoordOfInside(s.w, s.h, n);
      assert At(r, CoordOf(s.w, n)) != At(s, CoordOf(s.w, n));
    }
    CoveredBy(s.w, s.h, Changed(s.grid, r.grid), cells);
  }

  lemma MoveChanges(s: State, a: Action, i: int)
    requires Inv(s) && 0 <= i < PLAYER_NUM
    ensures |Changed(s.grid, Move(s, a, i).grid)| <= 2
  {
    MoveEffect(s, a, i);
    ChangedWithin(s, Move(s, a, i), [s.players[i].pos, NextPosition(a, s.players[i].pos)]);
  }

  lemma DropChanges(s: State, i: int, now: int)
    requires Inv(s) && 0 <= i < PLAYER_NUM
    ensures |Changed(s.grid, Drop(s, i, now).grid)| <= 1
  {
    ChangedWithin(s, Drop(s, i, now), [s.players[i].pos]);
  }

  // ---- the nine cells of an explosion ------------------------------------------------------

  /** The nine cells an explosion at c can change: the wall lattice blocks all four diagonals when both
      coordinates of the bomb are even, and one whole axis when one of them is odd. */
  predicate InReach(c: Coord, d: Coord) {
    var dx, dy := d.x - c.x, d.y - c.y;
    || (dx == 0 && dy == 0)
    || (c.y % 2 == 0 && dy == 0 && -2 <= dx <= 2)
    || (c.x % 2 == 0 && dx == 0 && -2 <= dy <= 2)
    || ((c.x % 2 == 1 || c.y % 2 == 1) && (dx == 1 || dx == -1) && (dy == 1 || dy == -1))
  }

  function Reach(c: Coord): (r: seq<Coord>)
    requires !(c.x % 2 == 1 && c.y % 2 == 1)
    ensures |r| == 9
  {
    [c]
    + (if c.y % 2 == 0 then [Offset(c, 1, 0), Offset(c, 2, 0), Offset(c, -1, 0), Offset(c, -2, 0)]
       else [Offset(c, 1, 1), Offset(c, 1, -1), Offset(c, -1, 1), Offset(c, -1, -1)])
    + (if c.x % 2 == 0 then [Offset(c, 0, 1), Offset(c, 0, 2), Offset(c, 0, -1), Offset(c, 0, -2)]
       else [Offset(c, 1, 1), Offset(c, 1, -1), Offset(c, -1, 1), Offset(c, -1, -1)])
  }

  lemma ReachListed(c: Coord, d: Coord)
    requires !(c.x % 2 == 1 && c.y % 2 == 1) && InReach(c, d)
    ensures d in Reach(c)
  {
    var r, dx, dy := Reach(c), d.x - c.x, d.y - c.y;
    assert r[0] == c;
    if dx != 0 && dy != 0 {
      var k := (if dx == 1 then 1 else 3) + (if dy == 1 then 0 else 1) + if c.x % 2 == 1 then 4 else 0;
      assert r[k] == d;
    } else if dx != 0 {
      assert r[if dx == 1 then 1 else if dx == 2 then 2 else if dx == -1 then 3 else 4] == d;
    } else if dy != 0 {
      assert r[if dy == 1 then 5 else if dy == 2 then 6 else if dy == -1 then 7 else 8] == d;
    }
  }

  /** An arm whose first cell is an indestructible wall changes nothing. */
  lemma BlockedArm(s: State, c: Coord, dx: int, dy: int, d: Coord)
    requires Inv(s) && On(s, d) && d in Arm(s, c, dx, dy)
    requires (c.x + dx) % 2 == 1 && (c.y + dy) % 2 == 1
    requires 0 <= c.x < s.w && 0 <= c.y < s.h && -1 <= dx <= 1 && -1 <= dy <= 1
    ensures At(s, d).IndestructibleWall?
  {
    var near := Offset(c, dx, dy);
    assert 0 < c.x + dx < s.w && 0 < c.y + dy < s.h;
    assert On(s, near) && At(s, near).IndestructibleWall?;
  }

  /** An even column or row lets the axis through; otherwise the first cell of the arm is odd/odd. */
  lemma AxisParity(c: Coord, dx: int, dy: int, d: Coord)
    requires !(c.x % 2 == 1 && c.y % 2 == 1) && IsDirection(dx, dy)
    requires d == Offset(c, dx, dy) || d == Offset(c, 2 * dx, 2 * dy)
    ensures InReach(c, d) || ((c.x + dx) % 2 == 1 && (c.y + dy) % 2 == 1)
  {
    if dy == 0 {
      if c.y % 2 == 1 {
        assert c.x % 2 == 0 && (c.x + dx) % 2 == 1;
      }
    } else if c.x % 2 == 1 {
      assert c.y % 2 == 0 && (c.y + dy) % 2 == 1;
    }
  }

  lemma ArmWithinReach(s: State, c: Coord, dx: int, dy: int, d: Coord)
    requires Inv(s) && On(s, c) && !(c.x % 2 == 1 && c.y % 2 == 1) && IsDirection(dx, dy)
    requires On(s, d) && d in Arm(s, c, dx, dy)
    ensures InReach(c, d) || At(s, d).IndestructibleWall?
  {
    AxisParity(c, dx, dy, d);
    if !InReach(c, d) {
      BlockedArm(s, c, dx, dy, d);
    }
  }

  lemma LatticeAt(s: State, c: Coord)
    requires Inv(s) && On(s, c) && c.x % 2 == 1 && c.y % 2 == 1
    ensures At(s, c).IndestructibleWall?
  {
  }

  lemma DiagonalParity(c: Coord, d: Coord)
    requires d in Diagonals(c)
    ensures InReach(c, d) || (d.x % 2 == 1 && d.y % 2 == 1)
  {
  }

  lemma DiagonalWithinReach(s: State, c: Coord, d: Coord)
    requires Inv(s) && On(s, d) && d in Diagonals(c)
    ensures InReach(c, d) || At(s, d).IndestructibleWall?
  {
    DiagonalParity(c, d);
    if !InReach(c, d) {
      LatticeAt(s, d);
    }
  }

  /** A cell of the blast on the board either is one of the nine or shows an indestructible wall. */
  lemma BlastWithinReach(s: State, c: Coord, d: Coord)
    requires Inv(s) && On(s, c) && !(c.x % 2 == 1 && c.y % 2 == 1) && On(s, d) && d in Blast(s, c)
    ensures InReach(c, d) || At(s, d).IndestructibleWall?
  {
    if d in Arm(s, c, 0, 1) {
      ArmWithinReach(s, c, 0, 1, d);
    } else if d in Arm(s, c, 0, -1) {
      ArmWithinReach(s, c, 0, -1, d);
    } else if d in Arm(s, c, 1, 0) {
      ArmWithinReach(s, c, 1, 0, d);
    } else if d in Arm(s, c, -1, 0) {
      ArmWithinReach(s, c, -1, 0, d);
    } else if d in Diagonals(c) {
      DiagonalWithinReach(s, c, d);
    }
  }

  lemma ExplodeChanges(s: State, k: nat)
    requires Inv(s) && k < |s.bombs|
    ensures |Changed(s.grid, Explode(s, k).grid)| <= 9
  {
    var c, r := s.bombs[k].pos, Explode(s, k);
    assert HasBomb(s.bombs, c);
    assert !(c.x % 2 == 1 && c.y % 2 == 1);
    forall d | On(s, d) && d !in Reach(c)
      ensures At(r, d) == At(s, d)
    {
      if d in Blast(s, c) {
        BlastWithinReach(s, c, d);
        if InReach(c, d) {
          ReachListed(c, d);
        }
      }
    }
    ChangedWithin(s, r, Reach(c));
  }

  // ---- seven cells and the players' tiles ---------------------------------------------------

  /** The flat indices that show a player. */
  ghost function Shown(g: seq<Tile>): set<nat> {
    set n: nat | n < |g| && IsPlayer(g[n])
  }

  lemma AtMostFourShown(s: State)
    requires Inv(s)
    ensures |Shown(s.grid)| <= PLAYER_NUM
  {
    var cells := [s.players[0].pos, s.players[1].pos, s.players[2].pos, s.players[3].pos];
    forall n | n in Shown(s.grid)
      ensures CoordOf(s.w, n) in cells
    {
      CoordOfInside(s.w, s.h, n);
      assert IsPlayer(At(s, CoordOf(s.w, n)));
    }
    CoveredBy(s.w, s.h, Shown(s.grid), cells);
  }

  /** The only cell of an arm where a wall can burn: what is behind its first wall is not reached. */
  function End(s: State, c: Coord, dx: int, dy: int): Coord
    requires |s.grid| == s.w * s.h
  {
    var near := Offset(c, dx, dy);
    if On(s, near) && IsWall(At(s, near)) then near else Offset(c, 2 * dx, 2 * dy)
  }

  /** Where an explosion at c can change anything but a player's tile. */
  function Ends(s: State, c: Coord): (r: seq<Coord>)
    requires |s.grid| == s.w * s.h && !(c.x % 2 == 1 && c.y % 2 == 1)
    ensures |r| <= 7 && c in r
    ensures c.y % 2 == 0 ==> End(s, c, 1, 0) in r && End(s, c, -1, 0) in r
    ensures c.x % 2 == 0 ==> End(s, c, 0, 1) in r && End(s, c, 0, -1) in r
    ensures c.x % 2 == 1 || c.y % 2 == 1 ==> forall d :: d in Diagonals(c) ==> d in r
  {
    var across, along := [End(s, c, 1, 0), End(s, c, -1, 0)], [End(s, c, 0, 1), End(s, c, 0, -1)];
    var diagonals := [Offset(c, 1, 1), Offset(c, 1, -1), Offset(c, -1, 1), Offset(c, -1, -1)];
    if c.x % 2 == 1 then [c] + across + diagonals
    else if c.y % 2 == 1 then [c] + along + diagonals
    else [c] + across + along
  }

  lemma WallOnArm(s: State, c: Coord, dx: int, dy: int, d: Coord)
    requires Inv(s) && On(s, c) && !(c.x % 2 == 1 && c.y % 2 == 1) && IsDirection(dx, dy)
    requires On(s, d) && d in Arm(s, c, dx, dy) && At(s, d).DestructibleWall?
    ensures d == End(s, c, dx, dy) && if dy == 0 then c.y % 2 == 0 else c.x % 2 == 0
  {
    if (c.x + dx) % 2 == 1 && (c.y + dy) % 2 == 1 {
      BlockedArm(s, c, dx, dy, d);
    }
    OpenAxis(c, dx, dy);
  }

  lemma OpenAxis(c: Coord, dx: int, dy: int)
    requires !(c.x % 2 == 1 && c.y % 2 == 1) && IsDirection(dx, dy)
    requires !((c.x + dx) % 2 == 1 && (c.y + dy) % 2 == 1)
    ensures if dy == 0 then c.y % 2 == 0 else c.x % 2 == 0
  {
  }

  lemma WallOnDiagonal(s: State, c: Coord, d: Coord)
    requires Inv(s) && On(s, d) && d in Diagonals(c) && At(s, d).DestructibleWall?
    ensures c.x % 2 == 1 || c.y % 2 == 1
  {
    DiagonalParity(c, d);
    if d.x % 2 == 1 && d.y % 2 == 1 {
      LatticeAt(s, d);
    }
  }

  lemma WallInBlast(s: State, c: Coord, d: Coord)
    requires Inv(s) && On(s, c) && !(c.x % 2 == 1 && c.y % 2 == 1)
    requires On(s, d) && d in Blast(s, c) && At(s, d).DestructibleWall?
    ensures d in Ends(s, c)
  {
    if d in Arm(s, c, 0, 1) {
      WallOnArm(s, c, 0, 1, d);
    } else if d in Arm(s, c, 0, -1) {
      WallOnArm(s, c, 0, -1, d);
    } else if d in Arm(s, c, 1, 0) {
      WallOnArm(s, c, 1, 0, d);
    } else if d in Arm(s, c, -1, 0) {
      WallOnArm(s, c, -1, 0, d);
    } else if d in Diagonals(c) {
      WallOnDiagonal(s, c, d);
    }
  }

  /** At most seven cells besides those that lose a player's tile. */
  lemma ExplodeChangesSeven(s: State, k: nat)
    requires Inv(s) && k < |s.bombs|
    ensures var r := Explode(s, k); |Changed(s.grid, r.grid)| + |Shown(r.grid)| <= 7 + |Shown(s.grid)|
  {
    var c, r := s.bombs[k].pos, Explode(s, k);
    assert HasBomb(s.bombs, c) && At(s, c).Bomb?;
    var plain := set n | n in Changed(s.grid, r.grid) && !IsPlayer(s.grid[n]);
    forall n: nat | n < |s.grid|
      ensures n in plain ==> CoordOf(s.w, n) in Ends(s, c)
      ensures IsPlayer(r.grid[n]) ==> r.grid[n] == s.grid[n]
    {
      var d := CoordOf(s.w, n);
      CoordOfInside(s.w, s.h, n);
      assert s.grid[n] == At(s, d) && r.grid[n] == At(r, d);
      if n in plain && d != c {
        WallInBlast(s, c, d);
      }
    }
    CoveredBy(s.w, s.h, plain, Ends(s, c));
    assert Shown(r.grid) <= Shown(s.grid);
    assert Changed(s.grid, r.grid) <= plain + (Shown(s.grid) - Shown(r.grid));
    SubsetSize(Changed(s.grid, r.grid), plain + (Shown(s.grid) - Shown(r.grid)));
  }

  lemma {:induction false} PassChanges(s: State, now: int, i: nat)
    requires Inv(s)
    ensures |BombPass(s, now, i).grid| == |s.grid|
    ensures var r, e := BombPass(s, now, i), |Exploded(s.bombs, now, i)|;
      && |Changed(s.grid, r.grid)| <= 9 * e
      && |Changed(s.grid, r.grid)| + |Shown(r.grid)| <= 7 * e + |Shown(s.grid)|
    decreases |s.bombs| - i
  {
    PassKeepsInv(s, now, i);
    if i < |s.bombs| {
      if Expired(s.bombs[i], now) {
        ExplodeKeepsInv(s, i);
        ExplodeChanges(s, i);
        ExplodeChangesSeven(s, i);
        PassChanges(Explode(s, i), now, i + 1);
        ChangedTwice(s.grid, Explode(s, i).grid, BombPass(s, now, i).grid);
      } else {
        PassChanges(s, now, i + 1);
      }
    } else {
      assert Changed(s.grid, s.grid) == {};
    }
  }

  // ---- and at least how many ---------------------------------------------------------------------

  lemma RestElsewhere(bombs: seq<BombRecord>, i: nat, b: BombRecord)
    requires DistinctBombs(bombs) && i < |bombs| && b in SwapRemove(bombs, i)
    ensures b in bombs && b.pos != bombs[i].pos
  {
  }

  lemma ApartStep(bombs: seq<BombRecord>, i: nat, e: seq<BombRecord>)
    requires DistinctBombs(bombs) && i < |bombs|
    requires DistinctBombs(e) && forall b :: b in e ==> b in SwapRemove(bombs, i)
    ensures DistinctBombs([bombs[i]] + e) && forall b :: b in [bombs[i]] + e ==> b in bombs
  {
    forall b | b in e
      ensures b in bombs && b.pos != bombs[i].pos
    {
      RestElsewhere(bombs, i, b);
    }
  }

  /** The exploded bombs were all there, no two of them on one cell. */
  lemma {:induction false} ExplodedApart(bombs: seq<BombRecord>, now: int, i: nat)
    requires DistinctBombs(bombs)
    ensures DistinctBombs(Exploded(bombs, now, i))
    ensures forall b :: b in Exploded(bombs, now, i) ==> b in bombs
    decreases |bombs| - i
  {
    if i < |bombs| {
      if Expired(bombs[i], now) {
        var rest := SwapRemove(bombs, i);
        SwapRemovedBombs(bombs, i);
        ExplodedApart(rest, now, i + 1);
        ApartStep(bombs, i, Exploded(rest, now, i + 1));
      } else {
        ExplodedApart(bombs, now, i + 1);
      }
    }
  }

  /** The flat indices of the bombs. */
  ghost function BombCells(s: State, e: seq<BombRecord>): set<nat>
    requires forall k :: 0 <= k < |e| ==> On(s, e[k].pos)
  {
    set k | 0 <= k < |e| && On(s, e[k].pos) :: Index(s.w, s.h, e[k].pos)
  }

  lemma {:induction false} BombCellsCount(s: State, e: seq<BombRecord>)
    requires DistinctBombs(e) && forall k :: 0 <= k < |e| ==> On(s, e[k].pos)
    ensures |BombCells(s, e)| == |e|
  {
    if e != [] {
      var front, b := e[..|e| - 1], e[|e| - 1];
      BombCellsCount(s, front);
      var n := Index(s.w, s.h, b.pos);
      assert BombCells(s, e) == BombCells(s, front) + {n} by {
        assert e == front + [b];
      }
      assert n !in BombCells(s, front);
    }
  }

  /** A pass changes at least one cell an explosion: the bomb's own. */
  lemma PassChangesAtLeast(s: State, now: int)
    requires Inv(s)
    ensures |BombPass(s, now, 0).grid| == |s.grid|
    ensures |Exploded(s.bombs, now, 0)| <= |Changed(s.grid, BombPass(s, now, 0).grid)|
  {
    var r, e := BombPass(s, now, 0), Exploded(s.bombs, now, 0);
    PassScorches(s, now, 0);
    PassChanges(s, now, 0);
    ExplodedApart(s.bombs, now, 0);
    forall k | 0 <= k < |e|
      ensures On(s, e[k].pos) && Index(s.w, s.h, e[k].pos) in Changed(s.grid, r.grid)
    {
      var c := e[k].pos;
      assert e[k] in s.bombs;
      var j :| 0 <= j < |s.bombs| && s.bombs[j] == e[k];
      assert HasBomb(s.bombs, c) && HasBomb(e, c);
      assert Scorched(s, r, e, c);
    }
    BombCellsCount(s, e);
    SubsetSize(BombCells(s, e), Changed(s.grid, r.grid));
  }
}
