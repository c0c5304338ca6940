/** A run in which the one-byte count of a board update wraps, so that the client falls out of step by ticks
    alone: one player walks over a board without random walls, dropping a bomb on every cell. */
module Overflow {
  import opened Board
  import opened Rules
  import opened BombList
  import opened Blasts
  import opened Changes
  import opened Runs
  import opened Setup
  import opened Diffs
  import opened Wire
  import opened Mirror

  // ---- any state with enough expired bombs -------------------------------------------------------

  /** A tick in which player i asks for no action. */
  function IdleTick(i: int, now: int, num: word): (e: MirrorEvent) {
    TickSent([PlayerAction(i, NoAction)], [now], now, num)
  }

  /** Asking for no action changes nothing, so such a tick is a bomb pass. */
  lemma IdleTickIsPass(s: State, i: int, now: int)
    requires Inv(s) && 0 <= i < PLAYER_NUM
    ensures Tick(s, [PlayerAction(i, NoAction)], [now], now) == BombPass(s, now, 0)
  {
    var acts := [PlayerAction(i, NoAction)];
    MoveEffect(s, NoAction, i);
    assert ActUpTo(s, acts, [now], 0) == s;
    assert ActUpTo(s, acts, [now], 1) == ActOne(s, acts[0], now);
  }

  /** With 511 expired bombs at least 256 explode, so more than 255 cells change and the client misses some. */
  lemma CrowdedTickWraps(m: Mirrored, i: int, now: int, num: word)
    requires InStep(m) && m.client == Codes(m.server.grid) && 0 <= i < PLAYER_NUM
    requires CountExpired(m.server.bombs, now) >= 511
    ensures var r := MirrorStep(m, IdleTick(i, now, num)); r.client != Codes(r.server.grid)
  {
    var s, e := m.server, IdleTick(i, now, num);
    IdleTickIsPass(s, i, now);
    HalvingLaw(s.bombs, now);
    PassChangesAtLeast(s, now);
    TickChanges(s, e.acts, e.clock, now);
    var r := BombPass(s, now, 0);
    InvTiles8(r);
    MirrorExact(s.w, s.h, num, r.grid, s.grid);
    DiffMinimal(s.w, r.grid, s.grid);
  }

  // ---- a board without random walls --------------------------------------------------------------

  /** Every draw leaves its cell empty. */
  function NoWalls(n: nat): nat {
    0
  }

  // ---- the walk ----------------------------------------------------------------------------------

  const WIDTH := 255

  /** The smallest legal height. */
  const HEIGHT := 9

  const LAST_CELL := 511

  /** Along the first row, down at its end, back along the third one, down, and on along the fifth. */
  function Cell(n: int): Coord {
    if n <= 252 then Coord(n, 0)
    else if n == 253 then Coord(252, 1)
    else if n <= 506 then Coord(506 - n, 2)
    else if n == 507 then Coord(0, 3)
    else Coord(n - 508, 4)
  }

  function Way(n: int): Action {
    if n < 252 then Right
    else if n < 254 then Down
    else if n < 506 then Left
    else if n < 508 then Down
    else Right
  }

  lemma WayLeads(n: int)
    ensures IsMove(Way(n)) && NextPosition(Way(n), Cell(n)) == Cell(n + 1)
  {
  }

  lemma CellsApart(j: int, k: int)
    requires 0 <= j < k <= LAST_CELL
    ensures Cell(j) != Cell(k)
  {
  }

  lemma CellFree(n: int)
    requires 1 <= n <= LAST_CELL
    ensures Inside(WIDTH, HEIGHT, Cell(n)) && !Odd(Cell(n)) && !IsCorner(WIDTH, HEIGHT, Cell(n))
  {
  }

  /** Player 0 has left bombs on cells 1 to n and stands on the last of them; the cells ahead are empty. */
  ghost predicate Trail(s: State, n: nat) {
    && Inv(s) && s.w == WIDTH && s.h == HEIGHT && n <= LAST_CELL
    && s.players[0] == Player(Cell(n), false)
    && |s.bombs| == n && (forall k :: 0 <= k < n ==> s.bombs[k] == BombRecord(Cell(k + 1), 0))
    && FreeAhead(s, n)
  }

  ghost predicate FreeAhead(s: State, n: nat)
    requires |s.grid| == s.w * s.h
  {
    forall k :: n < k <= LAST_CELL ==> On(s, Cell(k)) && At(s, Cell(k)).Empty?
  }

  lemma CellStartsEmpty(s: State, k: int)
    requires Start(s, NoWalls) && s.w == WIDTH && s.h == HEIGHT && 1 <= k <= LAST_CELL
    ensures On(s, Cell(k)) && At(s, Cell(k)).Empty?
  {
    CellFree(k);
  }

  lemma StartFirst(s: State, random: nat -> nat)
    requires Start(s, random)
    ensures s.bombs == [] && s.players[0] == Player(Coord(0, 0), false)
  {
  }

  lemma StartFreeAhead(s: State)
    requires Start(s, NoWalls) && s.w == WIDTH && s.h == HEIGHT
    ensures FreeAhead(s, 0)
  {
    forall k | 0 < k <= LAST_CELL
      ensures On(s, Cell(k)) && At(s, Cell(k)).Empty?
    {
      CellStartsEmpty(s, k);
    }
  }

  /** One step on and one bomb. */
  lemma TrailGrows(s: State, n: nat)
    requires Trail(s, n) && n < LAST_CELL
    ensures Trail(Drop(Move(s, Way(n), 0), 0, 0), n + 1)
  {
    var to := Cell(n + 1);
    WayLeads(n);
    CellsApart(n, n + 1);
    MoveEffect(s, Way(n), 0);
    MoveKeepsInv(s, Way(n), 0);
    var m := Move(s, Way(n), 0);
    assert Stepped(s, m, 0, to);
    DropKeepsInv(m, 0, 0);
    forall k | n + 1 < k <= LAST_CELL
      ensures On(s, Cell(k)) && At(Drop(m, 0, 0), Cell(k)).Empty?
    {
      CellsApart(n, k);
      CellsApart(n + 1, k);
    }
  }

  lemma {:induction false} NoneExpiredPass(s: State, now: int, i: nat)
    requires Shape(s) && forall k :: 0 <= k < |s.bombs| ==> !Expired(s.bombs[k], now)
    ensures BombPass(s, now, i) == s && Exploded(s.bombs, now, i) == []
    decreases |s.bombs| - i
  {
    if i < |s.bombs| {
      NoneExpiredPass(s, now, i + 1);
    }
  }

  // ---- the run -----------------------------------------------------------------------------------

  /** A move and a drop of the first player, all within one second. */
  function StepTick(n: nat): (e: MirrorEvent) {
    TickSent([PlayerAction(0, Way(n)), PlayerAction(0, PlaceBomb)], [0, 0], 0, 0)
  }

  /** The steps from the n-th cell on, then a tick without an action when the bombs have expired. */
  function TicksFrom(n: nat): (events: seq<MirrorEvent>)
    requires n <= LAST_CELL
    ensures forall e :: e in events ==> LegalMirrorEvent(e) && e.TickSent? && |e.acts| <= 2
    decreases LAST_CELL - n
  {
    if n == LAST_CELL then [IdleTick(0, BOMB_LIFETIME, 0)] else [StepTick(n)] + TicksFrom(n + 1)
  }

  lemma StepTickMoves(s: State, n: nat)
    requires Trail(s, n) && n < LAST_CELL
    ensures var e := StepTick(n);
      && Trail(Tick(s, e.acts, e.clock, e.now), n + 1)
      && TickExploded(s, e.acts, e.clock, e.now) == [] && CountDrops(e.acts, |e.acts|) == 1
  {
    var e := StepTick(n);
    var m := Move(s, Way(n), 0);
    var r := Drop(m, 0, 0);
    assert !Way(n).PlaceBomb?;
    assert ActUpTo(s, e.acts, e.clock, 0) == s;
    assert ActUpTo(s, e.acts, e.clock, 1) == ActOne(s, e.acts[0], 0) == m;
    assert ActUpTo(s, e.acts, e.clock, 2) == ActOne(m, e.acts[1], 0) == r;
    TrailGrows(s, n);
    NoneExpiredPass(r, 0, 0);
    assert CountDrops(e.acts, 1) == 0;
  }

  lemma {:induction false} AllExpired(bombs: seq<BombRecord>, now: int)
    requires forall k :: 0 <= k < |bombs| ==> Expired(bombs[k], now)
    ensures CountExpired(bombs, now) == |bombs|
  {
    if bombs != [] {
      AllExpired(bombs[1..], now);
    }
  }

  lemma InStepEverywhere(m: Mirrored)
    requires InStep(m) && m.stale == {}
    ensures m.client == Codes(m.server.grid)
  {
  }

  lemma {:induction false} TrailFallsOutOfStep(m: Mirrored, n: nat)
    requires InStep(m) && m.stale == {} && Trail(m.server, n)
    ensures var (r, touched) := MirrorRun(m, {}, TicksFrom(n));
      touched == {} && r.client != Codes(r.server.grid)
    decreases LAST_CELL - n
  {
    var e := TicksFrom(n)[0];
    StepInStep(m, e);
    var t := MirrorStep(m, e);
    if n == LAST_CELL {
      AllExpired(m.server.bombs, BOMB_LIFETIME);
      InStepEverywhere(m);
      CrowdedTickWraps(m, 0, BOMB_LIFETIME, 0);
      assert MirrorRun(t, {}, []) == (t, {});
      assert TicksFrom(n)[1..] == [];
    } else {
      StepTickMoves(m.server, n);
      CappedTickSendsAll(m, e);
      TrailFallsOutOfStep(t, n + 1);
      assert TicksFrom(n)[1..] == TicksFrom(n + 1);
    }
  }

  lemma OpenTrail()
    ensures Trail(StartBoard(WIDTH, HEIGHT, NoWalls), 0)
  {
    var s := StartBoard(WIDTH, HEIGHT, NoWalls);
    StartExists(WIDTH, HEIGHT, NoWalls);
    StartInv(s, NoWalls);
    StartFirst(s, NoWalls);
    StartFreeAhead(s);
  }

  /** From a starting board that the client has, a run of ticks of one player's moves and drops after which the
      client's board is not the server's, although no pass and no disconnection came between. */
  lemma CountWraps()
    ensures Start(StartBoard(WIDTH, HEIGHT, NoWalls), NoWalls)
    ensures var m := Mirrored(StartBoard(WIDTH, HEIGHT, NoWalls), Codes(StartBoard(WIDTH, HEIGHT, NoWalls).grid), {});
      && InStep(m)
      && var (r, touched) := MirrorRun(m, {}, TicksFrom(0));
      touched == {} && r.client != Codes(r.server.grid)
  {
    var s := StartBoard(WIDTH, HEIGHT, NoWalls);
    StartExists(WIDTH, HEIGHT, NoWalls);
    OpenTrail();
    TrailFallsOutOfStep(Mirrored(s, Codes(s.grid), {}), 0);
  }
}
