/** The rules of the game on values: what each operation of src/model.c does to the board,
    the four players and the bomb list, and the invariant that ties the three together. */
module Rules {
  import opened Board

  const BOMB_LIFETIME := 3

  datatype GameMode = TEAM | SOLO

  datatype Action = Up | Right | Down | Left | PlaceBomb | NoAction | ChatModeStart | Quit

  datatype Player = Player(pos: Coord, dead: bool)

  datatype BombRecord = BombRecord(pos: Coord, placed: int)

  datatype State = State(w: nat, h: nat, grid: seq<Tile>, players: seq<Player>, bombs: seq<BombRecord>)

  ghost predicate Shape(s: State) {
    && 0 < s.w && 0 < s.h
    && |s.grid| == s.w * s.h
    && |s.players| == PLAYER_NUM
    && (forall i :: 0 <= i < PLAYER_NUM ==> On(s, s.players[i].pos))
    && (forall k :: 0 <= k < |s.bombs| ==> On(s, s.bombs[k].pos))
  }

  predicate On(s: State, c: Coord) {
    Inside(s.w, s.h, c)
  }

  function At(s: State, c: Coord): Tile
    requires |s.grid| == s.w * s.h && On(s, c)
  {
    s.grid[Index(s.w, s.h, c)]
  }

  function Put(s: State, c: Coord, t: Tile): (r: State)
    requires |s.grid| == s.w * s.h && On(s, c)
    ensures r == s.(grid := r.grid) && |r.grid| == |s.grid|
    ensures forall d :: On(s, d) ==> At(r, d) == if d == c then t else At(s, d)
  {
    s.(grid := s.grid[Index(s.w, s.h, c) := t])
  }

  // ---- the invariant ------------------------------------------------------------------

  predicate Alive(s: State, i: int)
    requires |s.players| == PLAYER_NUM && 0 <= i < PLAYER_NUM
  {
    !s.players[i].dead
  }

  ghost predicate HasBomb(bombs: seq<BombRecord>, c: Coord) {
    exists k :: 0 <= k < |bombs| && bombs[k].pos == c
  }

  predicate DistinctBombs(bombs: seq<BombRecord>) {
    forall j, k :: 0 <= j < k < |bombs| ==> bombs[j].pos != bombs[k].pos
  }

  ghost predicate LegalSize(s: State) {
    9 <= s.w && 9 <= s.h && s.w % 2 == 1 && s.h % 2 == 1
  }

  /** Indestructible walls are exactly the odd/odd cells; no EXPLOSION or border tile is on the board. */
  ghost predicate WallLattice(s: State)
    requires Shape(s)
  {
    forall c :: On(s, c) ==>
      && (At(s, c).IndestructibleWall? <==> c.x % 2 == 1 && c.y % 2 == 1)
      && !At(s, c).Explosion? && !At(s, c).VerticalBorder? && !At(s, c).HorizontalBorder?
  }

  /** Nobody, dead or alive, has a position inside a wall; a living player is on its own tile or on a bomb. */
  ghost predicate PlayersShown(s: State)
    requires Shape(s)
  {
    forall i :: 0 <= i < PLAYER_NUM ==>
      && !IsWall(At(s, s.players[i].pos))
      && (Alive(s, i) ==> At(s, s.players[i].pos) == PlayerTile(i) || At(s, s.players[i].pos).Bomb?)
  }

  /** A player's tile is shown only where that player is, and only while it lives. */
  ghost predicate TilesOwned(s: State)
    requires Shape(s)
  {
    forall c :: On(s, c) && IsPlayer(At(s, c)) ==>
      var i := PlayerId(At(s, c)); Alive(s, i) && s.players[i].pos == c
  }

  ghost predicate LivingApart(s: State)
    requires Shape(s)
  {
    forall i, j :: 0 <= i < j < PLAYER_NUM && Alive(s, i) && Alive(s, j) ==> s.players[i].pos != s.players[j].pos
  }

  /** BOMB cells and bomb records are in bijection. */
  ghost predicate BombsShown(s: State)
    requires Shape(s)
  {
    && DistinctBombs(s.bombs)
    && forall c :: On(s, c) ==> (At(s, c).Bomb? <==> HasBomb(s.bombs, c))
  }

  ghost predicate Inv(s: State) {
    Shape(s) && LegalSize(s) && WallLattice(s) && PlayersShown(s) && TilesOwned(s) && LivingApart(s) && BombsShown(s)
  }

  // ---- moves and bomb drops -----------------------------------------------------------

  predicate IsMove(a: Action) {
    a.Left? || a.Right? || a.Up? || a.Down? || a.NoAction?
  }

  function NextPosition(a: Action, c: Coord): Coord {
    match a
    case Left => Coord(c.x - 1, c.y)
    case Right => Coord(c.x + 1, c.y)
    case Up => Coord(c.x, c.y - 1)
    case Down => Coord(c.x, c.y + 1)
    case _ => c
  }

  predicate CanMoveTo(s: State, c: Coord)
    requires |s.grid| == s.w * s.h
  {
    On(s, c) && !At(s, c).Bomb? && !IsWall(At(s, c)) && !IsPlayer(At(s, c))
  }

  /** `perform_move` */
  function Move(s: State, a: Action, i: int): (r: State)
    requires Shape(s) && 0 <= i < PLAYER_NUM
    ensures Shape(r)
  {
    var from := s.players[i].pos;
    var c := NextPosition(a, from);
    if s.players[i].dead || !CanMoveTo(s, c) then s
    else
      var s1 := Put(s.(players := s.players[i := Player(c, false)]), c, PlayerTile(i));
      if At(s1, from).Bomb? then s1 else Put(s1, from, Empty)
  }

  /** `place_bomb`: a dead player may drop a bomb too. */
  function Drop(s: State, i: int, now: int): (r: State)
    requires Shape(s) && 0 <= i < PLAYER_NUM
    ensures Shape(r)
  {
    var c := s.players[i].pos;
    if At(s, c).Bomb? then s
    else Put(s.(bombs := s.bombs + [BombRecord(c, now)]), c, Bomb)
  }

  /** `set_player_dead`: the player's tile, wherever shown, is cleared. */
  function Evict(s: State, i: int): (r: State)
    requires Shape(s) && 0 <= i < PLAYER_NUM
    ensures Shape(r) && (r.w, r.h) == (s.w, s.h)
    ensures forall c :: On(s, c) ==> At(r, c) == if At(s, c) == PlayerTile(i) then Empty else At(s, c)
  {
    s.(grid := seq(|s.grid|, n requires 0 <= n < |s.grid| => if s.grid[n] == PlayerTile(i) then Empty else s.grid[n]),
       players := s.players[i := s.players[i].(dead := true)])
  }

  /** Player i has stepped from its cell to the free cell `to`, leaving behind an empty cell or its bomb. */
  ghost predicate Stepped(s: State, r: State, i: int, to: Coord)
    requires Shape(s) && Shape(r) && 0 <= i < PLAYER_NUM
  {
    var from := s.players[i].pos;
    && r == s.(grid := r.grid, players := s.players[i := Player(to, false)])
    && to != from && On(s, to)
    && At(r, to) == PlayerTile(i)
    && At(r, from) == (if At(s, from).Bomb? then Bomb else Empty)
    && (forall c :: On(s, c) && c != from && c != to ==> At(r, c) == At(s, c))
  }

  /** A living player steps exactly when its next cell is free; any other attempt changes nothing. */
  lemma MoveEffect(s: State, a: Action, i: int)
    requires Inv(s) && 0 <= i < PLAYER_NUM
    ensures var r := Move(s, a, i); var to := NextPosition(a, s.players[i].pos);
      && (CanMoveTo(s, to) <==> On(s, to) && At(s, to) == Empty)
      && if Alive(s, i) && CanMoveTo(s, to) then Stepped(s, r, i, to) else r == s
  {
  }

  lemma SteppedKeepsBoard(s: State, r: State, i: int, to: Coord)
    requires Inv(s) && Shape(r) && 0 <= i < PLAYER_NUM
    requires Alive(s, i) && CanMoveTo(s, to) && Stepped(s, r, i, to)
    ensures WallLattice(r) && BombsShown(r)
  {
  }

  lemma SteppedKeepsPlayers(s: State, r: State, i: int, to: Coord)
    requires Inv(s) && Shape(r) && 0 <= i < PLAYER_NUM
    requires Alive(s, i) && CanMoveTo(s, to) && Stepped(s, r, i, to)
    ensures PlayersShown(r)
  {
    forall j | 0 <= j < PLAYER_NUM
      ensures !IsWall(At(r, r.players[j].pos))
      ensures Alive(r, j) ==> At(r, r.players[j].pos) == PlayerTile(j) || At(r, r.players[j].pos).Bomb?
    {
      var c := s.players[j].pos;
      if j != i && Alive(s, j) {
        assert c != to && c != s.players[i].pos;
      }
    }
  }

  lemma SteppedKeepsOwners(s: State, r: State, i: int, to: Coord)
    requires Inv(s) && Shape(r) && 0 <= i < PLAYER_NUM
    requires Alive(s, i) && CanMoveTo(s, to) && Stepped(s, r, i, to)
    ensures TilesOwned(r) && LivingApart(r)
  {
    forall c | On(r, c) && IsPlayer(At(r, c))
      ensures var k := PlayerId(At(r, c)); Alive(r, k) && r.players[k].pos == c
    {
      if c != to {
        assert At(r, c) == At(s, c) != PlayerTile(i);
      }
    }
  }

  lemma MoveKeepsInv(s: State, a: Action, i: int)
    requires Inv(s) && 0 <= i < PLAYER_NUM
    ensures Inv(Move(s, a, i))
  {
    MoveEffect(s, a, i);
    var to := NextPosition(a, s.players[i].pos);
    if Alive(s, i) && CanMoveTo(s, to) {
      var r := Move(s, a, i);
      SteppedKeepsBoard(s, r, i, to);
      SteppedKeepsPlayers(s, r, i, to);
      SteppedKeepsOwners(s, r, i, to);
    }
  }

  /** A drop puts a bomb of this time on the player's cell, unless one is there already; a dead player drops too. */
  lemma DropEffect(s: State, i: int, now: int)
    requires Inv(s) && 0 <= i < PLAYER_NUM
    ensures var r := Drop(s, i, now); var c := s.players[i].pos;
      && r.players == s.players && (r.w, r.h) == (s.w, s.h)
      && (if HasBomb(s.bombs, c) then r == s else multiset(r.bombs) == multiset(s.bombs) + multiset{BombRecord(c, now)})
      && HasBomb(r.bombs, c) && At(r, c).Bomb?
      && (forall d :: On(s, d) && d != c ==> At(r, d) == At(s, d))
  {
    if !HasBomb(s.bombs, s.players[i].pos) {
      assert Drop(s, i, now).bombs[|s.bombs|].pos == s.players[i].pos;
    }
  }

  lemma DropKeepsInv(s: State, i: int, now: int)
    requires Inv(s) && 0 <= i < PLAYER_NUM
    ensures Inv(Drop(s, i, now))
  {
    var r := Drop(s, i, now);
    var c := s.players[i].pos;
    if !At(s, c).Bomb? {
      assert r.bombs[|s.bombs|].pos == c;
      forall d | On(s, d)
        ensures At(r, d).Bomb? <==> HasBomb(r.bombs, d)
      {
        if HasBomb(s.bombs, d) {
          var k :| 0 <= k < |s.bombs| && s.bombs[k].pos == d;
          assert r.bombs[k].pos == d;
        }
      }
    }
  }

  /** After a disconnection the player is dead and shown nowhere; other players, cells and bombs stay. */
  lemma EvictEffect(s: State, i: int)
    requires Inv(s) && 0 <= i < PLAYER_NUM
    ensures var r := Evict(s, i);
      && !Alive(r, i) && (forall j :: 0 <= j < PLAYER_NUM && j != i ==> r.players[j] == s.players[j])
      && r.bombs == s.bombs && (r.w, r.h) == (s.w, s.h)
      && (forall c :: On(s, c) ==> At(r, c) != PlayerTile(i))
      && (forall c :: On(s, c) && At(r, c) != At(s, c) ==> At(s, c) == PlayerTile(i) && c == s.players[i].pos)
  {
    forall c | On(s, c) && At(s, c) == PlayerTile(i)
      ensures c == s.players[i].pos
    {
      assert IsPlayer(At(s, c));
    }
  }

  lemma EvictKeepsInv(s: State, i: int)
    requires Inv(s) && 0 <= i < PLAYER_NUM
    ensures Inv(Evict(s, i))
  {
    var r := Evict(s, i);
    assert WallLattice(r) && BombsShown(r);
    forall j | 0 <= j < PLAYER_NUM
      ensures !IsWall(At(r, r.players[j].pos))
      ensures Alive(r, j) ==> At(r, r.players[j].pos) == PlayerTile(j) || At(r, r.players[j].pos).Bomb?
    {
      assert r.players[j].pos == s.players[j].pos;
    }
    forall c | On(r, c) && IsPlayer(At(r, c))
      ensures var k := PlayerId(At(r, c)); Alive(r, k) && r.players[k].pos == c
    {
      assert At(r, c) == At(s, c) != PlayerTile(i);
    }
  }
}
