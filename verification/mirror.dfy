/** The client's board and how it follows the server's: tick differences and whole boards over the wire,
    delivered in order and without loss, a snapshot and its sending taken as one step. */
module Mirror {
  import opened Board
  import opened Rules
  import opened BombList
  import opened Blasts
  import opened Changes
  import opened Runs
  import opened Diffs
  import opened Wire

  class ClientBoard {
    var width: nat
    var height: nat
    var grid: array<int>

    constructor ()
      ensures grid.Length == height * width && fresh(grid)
    {
      width, height := 100, 100;
      grid := new int[100 * 100](_ => 0);
    }

    /** `update_board`: a new grid of the announced size replaces the old one. */
    method UpdateBoard(tiles: array<int>, w: nat, h: nat)
      requires tiles.Length == h * w
      modifies this
      ensures (width, height) == (w, h) && fresh(grid) && grid[..] == tiles[..]
    {
      width, height := w, h;
      grid := new int[h * w](_ => 0);
      for i := 0 to grid.Length
        invariant (width, height) == (w, h) && fresh(grid) && grid.Length == tiles.Length
        invariant grid[..i] == tiles[..i]
      {
        grid[i] := tiles[i];
      }
    }

    /** `update_tile_diff` */
    method UpdateTileDiff(diff: array<TileDiff>, size: nat)
      requires size <= diff.Length && Fits(width, grid.Length, diff[..size])
      modifies grid
      ensures grid[..] == Patch(width, old(grid[..]), diff[..size])
    {
      ghost var d := diff[..size];
      for i := 0 to size
        invariant grid[..] == Patch(width, old(grid[..]), d[..i])
      {
        assert d[..i + 1] == d[..i] + [d[i]];
        PatchSnoc(width, old(grid[..]), d[..i], d[i]);
        var pos := (diff[i].y as int) * width + diff[i].x as int;
        grid[pos] := diff[i].tile;
      }
      assert d[..size] == d;
    }
  }

  // ---- what is sent ---------------------------------------------------------------------

  /** `send_game_update`: the count is cut to one byte, and only so many records are sent. */
  function SentDiff(d: seq<TileDiff>): (sent: seq<TileDiff>)
    ensures |sent| < 256 && sent <= d
    ensures sent == d <==> |d| < 256
  {
    d[..|d| % 256]
  }

  /** The client's cells after receiving an update message, if it is one that fits its board. */
  function ReceiveUpdate(w: nat, client: seq<int>, b: Option<seq<byte>>): (r: seq<int>)
    ensures |r| == |client|
  {
    if b.None? || |b.value| < 5 || |b.value| < 5 + 3 * (b.value[4] as nat) then client
    else
      var u := DecodeUpdate(b.value);
      if u.None? || !Fits(w, |client|, u.value.diff) then client else Patch(w, client, u.value.diff)
  }

  function ReceiveBoard(client: seq<int>, b: Option<seq<byte>>): seq<int> {
    if b.None? || |b.value| < 6 || |b.value| < 6 + (b.value[4] as nat) * (b.value[5] as nat) then client
    else
      var m := DecodeBoard(b.value);
      if m.None? then client else m.value.tiles
  }

  // ---- one update, end to end --------------------------------------------------------------

  ghost predicate Tiles8(g: seq<Tile>) {
    forall n :: 0 <= n < |g| ==> Code(g[n]) <= 8
  }

  lemma InvTiles8(s: State)
    requires Inv(s)
    ensures Tiles8(s.grid)
  {
    forall n | 0 <= n < |s.grid|
      ensures Code(s.grid[n]) <= 8
    {
      CoordOfInside(s.w, s.h, n);
      assert s.grid[n] == At(s, CoordOf(s.w, n));
    }
  }

  predicate AllSendable(d: seq<TileDiff>) {
    forall k :: 0 <= k < |d| ==> Sendable(d[k])
  }

  lemma RecordSendable(w: nat, cur: seq<Tile>, n: nat)
    requires 0 < w && n < |cur| && Tiles8(cur)
    ensures Sendable(DiffAt(w, cur, n))
  {
  }

  lemma {:induction false} DiffSendable(w: nat, cur: seq<Tile>, prev: seq<Tile>, n: nat)
    requires 0 < w && n <= |cur| == |prev| && Tiles8(cur)
    ensures AllSendable(Diff(w, cur, prev, n))
  {
    if n > 0 {
      DiffSendable(w, cur, prev, n - 1);
      RecordSendable(w, cur, n - 1);
      var d := Diff(w, cur, prev, n - 1);
      assert AllSendable(d + [DiffAt(w, cur, n - 1)]);
    }
  }

  /** Any message with at most 255 legal records makes the client apply exactly those records. */
  lemma UpdateDelivers(w: nat, num: word, sent: seq<TileDiff>, client: seq<int>)
    requires |sent| < 256 && AllSendable(sent) && Fits(w, |client|, sent)
    ensures ReceiveUpdate(w, client, EncodeUpdate(num, |sent|, sent)) == Patch(w, client, sent)
  {
    UpdateRoundTrip(num, |sent|, sent);
  }

  lemma SentPart(w: nat, cur: seq<Tile>, prev: seq<Tile>, d: seq<TileDiff>)
    requires |cur| == |prev| && Ordered(w, cur, prev, d, |cur|) && AllSendable(d)
    ensures Fits(w, |cur|, SentDiff(d)) && AllSendable(SentDiff(d)) && Ordered(w, cur, prev, SentDiff(d), |cur|)
  {
    var sent := SentDiff(d);
    assert forall k :: 0 <= k < |sent| ==> sent[k] == d[k];
  }

  /** The message a tick sends makes the client apply exactly the records that were sent. */
  lemma UpdateArrives(w: nat, h: nat, num: word, cur: seq<Tile>, prev: seq<Tile>, client: seq<int>)
    requires 0 < w <= 256 && h <= 256 && |cur| == w * h == |prev| == |client| && Tiles8(cur)
    ensures var sent := SentDiff(Diff(w, cur, prev, |cur|));
      && Fits(w, |client|, sent)
      && ReceiveUpdate(w, client, EncodeUpdate(num, |sent|, sent)) == Patch(w, client, sent)
  {
    var d := Diff(w, cur, prev, |cur|);
    DiffOrdered(w, h, cur, prev, |cur|);
    DiffSendable(w, cur, prev, |cur|);
    SentPart(w, cur, prev, d);
    UpdateDelivers(w, num, SentDiff(d), client);
  }

  /** Difference, message and patch compose to the identity exactly when at most 255 cells differ. */
  lemma MirrorExact(w: nat, h: nat, num: word, cur: seq<Tile>, prev: seq<Tile>)
    requires 0 < w <= 256 && h <= 256 && |cur| == w * h == |prev| && Tiles8(cur)
    ensures var sent := SentDiff(Diff(w, cur, prev, |cur|));
      ReceiveUpdate(w, Codes(prev), EncodeUpdate(num, |sent|, sent)) == Codes(cur) <==> |Changed(prev, cur)| <= 255
  {
    var d := Diff(w, cur, prev, |cur|);
    UpdateArrives(w, h, num, cur, prev, Codes(prev));
    PatchPrefixExact(w, h, cur, prev, |d| % 256);
    DiffMinimal(w, cur, prev);
  }

  /** A whole board of at most 255 by 255 cells replaces whatever the client had. */
  lemma BoardArrives(s: State, num: word, client: seq<int>)
    requires Inv(s) && s.w <= 255 && s.h <= 255
    ensures ReceiveBoard(client, EncodeBoard(BoardMessage(num, s.h, s.w, Codes(s.grid)))) == Codes(s.grid)
  {
    InvTiles8(s);
    BoardRoundTrip(BoardMessage(num, s.h, s.w, Codes(s.grid)));
  }

  // ---- whole runs ---------------------------------------------------------------------------

  /** Server and client together; `stale` holds the cells whose last change the client may not have seen. */
  datatype Mirrored = Mirrored(server: State, client: seq<int>, stale: set<nat>)

  datatype MirrorEvent =
    | TickSent(acts: seq<PlayerAction>, clock: seq<int>, now: int, num: word)
    | SecondPass(now: int)
    | BoardSent(num: word)
    | Disconnect(i: int)

  predicate LegalMirrorEvent(e: MirrorEvent) {
    match e
    case TickSent(acts, clock, _, _) => LegalActions(acts) && |clock| == |acts|
    case Disconnect(i) => 0 <= i < PLAYER_NUM
    case _ => true
  }

  function Positions(w: nat, d: seq<TileDiff>): set<int> {
    set k | 0 <= k < |d| :: Position(w, d[k])
  }

  /** The board differs from the client's at most on stale cells. */
  ghost predicate InStep(m: Mirrored) {
    && Inv(m.server) && m.server.w <= 255 && m.server.h <= 255
    && |m.client| == |m.server.grid|
    && forall n :: 0 <= n < |m.client| && n !in m.stale ==> m.client[n] == Code(m.server.grid[n])
  }

  ghost function MirrorStep(m: Mirrored, e: MirrorEvent): Mirrored
    requires Inv(m.server) && m.server.w <= 255 && m.server.h <= 255 && LegalMirrorEvent(e)
  {
    var s := m.server;
    match e
    case TickSent(acts, clock, now, num) =>
      TickChanges(s, acts, clock, now);
      var r := Tick(s, acts, clock, now);
      var d := Diff(s.w, r.grid, s.grid, |r.grid|);
      Mirrored(r,
               if d == [] then m.client else ReceiveUpdate(s.w, m.client, EncodeUpdate(num, |SentDiff(d)|, SentDiff(d))),
               set n | n in m.stale + Unsent(s.w, d) && n !in Positions(s.w, SentDiff(d)))
    case SecondPass(now) =>
      PassChanges(s, now, 0);
      Mirrored(BombPass(s, now, 0), m.client, m.stale + Changed(s.grid, BombPass(s, now, 0).grid))
    case BoardSent(num) =>
      Mirrored(s, ReceiveBoard(m.client, EncodeBoard(BoardMessage(num, s.h, s.w, Codes(s.grid)))), {})
    case Disconnect(i) =>
      Mirrored(Evict(s, i), m.client, m.stale + Changed(s.grid, Evict(s, i).grid))
  }

  /** The cells of the records that the one-byte count leaves out. */
  function Unsent(w: nat, d: seq<TileDiff>): set<nat> {
    set k | |SentDiff(d)| <= k < |d| && Position(w, d[k]) >= 0 :: Position(w, d[k])
  }

  /** Patching with differences of two boards gives the addressed cells their new tile and leaves the rest. */
  lemma {:induction false} PatchValue(w: nat, cur: seq<Tile>, prev: seq<Tile>, d: seq<TileDiff>, g: seq<int>, n: nat)
    requires |g| == |cur| == |prev| && n < |g| && Ordered(w, cur, prev, d, |cur|) && Fits(w, |g|, d)
    ensures Patch(w, g, d)[n] == if n in Positions(w, d) then Code(cur[n]) else g[n]
    decreases |d|
  {
    if d != [] {
      var front, e := d[..|d| - 1], d[|d| - 1];
      OrderedFront(w, cur, prev, d);
      PatchValue(w, cur, prev, front, g, n);
      PositionsSnoc(w, front, e);
      assert d == front + [e];
    }
  }

  lemma OrderedFront(w: nat, cur: seq<Tile>, prev: seq<Tile>, d: seq<TileDiff>)
    requires |cur| == |prev| && d != [] && Ordered(w, cur, prev, d, |cur|)
    ensures Ordered(w, cur, prev, d[..|d| - 1], |cur|) && Fits(w, |cur|, d[..|d| - 1])
  {
    assert forall k :: 0 <= k < |d| - 1 ==> d[..|d| - 1][k] == d[k];
  }

  lemma PositionsSnoc(w: nat, d: seq<TileDiff>, e: TileDiff)
    ensures Positions(w, d + [e]) == Positions(w, d) + {Position(w, e)}
  {
    var r := d + [e];
    forall p | p in Positions(w, d)
      ensures p in Positions(w, r)
    {
      var k :| 0 <= k < |d| && Position(w, d[k]) == p;
      assert r[k] == d[k];
    }
    assert r[|d|] == e;
  }

  lemma DiffCovers(w: nat, h: nat, cur: seq<Tile>, prev: seq<Tile>, n: nat)
    requires 0 < w <= 256 && h <= 256 && |cur| == w * h == |prev| && n < |cur| && cur[n] != prev[n]
    ensures var d := Diff(w, cur, prev, |cur|); n in Positions(w, SentDiff(d)) + Unsent(w, d)
  {
    var d := Diff(w, cur, prev, |cur|);
    DiffListsCell(w, h, cur, prev, |cur|, n);
    var k :| 0 <= k < |d| && Position(w, d[k]) == n;
    if k < |SentDiff(d)| {
      assert SentDiff(d)[k] == d[k];
    }
  }

  lemma {:induction false} DiffListsCell(w: nat, h: nat, cur: seq<Tile>, prev: seq<Tile>, m: nat, n: nat)
    requires 0 < w <= 256 && h <= 256 && |cur| == w * h == |prev| && n < m <= |cur| && cur[n] != prev[n]
    ensures exists k :: 0 <= k < |Diff(w, cur, prev, m)| && Position(w, Diff(w, cur, prev, m)[k]) == n
  {
    var d := Diff(w, cur, prev, m);
    if n == m - 1 {
      PositionOfDiff(w, h, cur, n);
      assert Position(w, d[|d| - 1]) == n;
    } else {
      DiffListsCell(w, h, cur, prev, m - 1, n);
      var before := Diff(w, cur, prev, m - 1);
      var k :| 0 <= k < |before| && Position(w, before[k]) == n;
      assert d[k] == before[k];
    }
  }

  lemma TickInStep(m: Mirrored, e: MirrorEvent)
    requires InStep(m) && LegalMirrorEvent(e) && e.TickSent?
    ensures InStep(MirrorStep(m, e))
  {
    var s, r := m.server, Tick(m.server, e.acts, e.clock, e.now);
    TickChanges(s, e.acts, e.clock, e.now);
    InvTiles8(r);
    var d := Diff(s.w, r.grid, s.grid, |r.grid|);
    var sent := SentDiff(d);
    var client := MirrorStep(m, e).client;
    UpdateArrives(s.w, s.h, e.num, r.grid, s.grid, m.client);
    DiffOrdered(s.w, s.h, r.grid, s.grid, |r.grid|);
    DiffSendable(s.w, r.grid, s.grid, |r.grid|);
    SentPart(s.w, r.grid, s.grid, d);
    assert client == Patch(s.w, m.client, sent);
    forall n | 0 <= n < |client| && n !in MirrorStep(m, e).stale
      ensures client[n] == Code(r.grid[n])
    {
      PatchValue(s.w, r.grid, s.grid, sent, m.client, n);
      if n !in Positions(s.w, sent) && r.grid[n] != s.grid[n] {
        DiffCovers(s.w, s.h, r.grid, s.grid, n);
      }
    }
  }

  lemma StepInStep(m: Mirrored, e: MirrorEvent)
    requires InStep(m) && LegalMirrorEvent(e)
    ensures InStep(MirrorStep(m, e))
  {
    match e
    case TickSent(_, _, _, _) => TickInStep(m, e);
    case SecondPass(now) =>
      PassKeepsInv(m.server, now, 0);
      PassChanges(m.server, now, 0);
    case BoardSent(num) => BoardArrives(m.server, num, m.client);
    case Disconnect(i) => EvictKeepsInv(m.server, i);
  }

  // ---- what goes unseen ---------------------------------------------------------------------------------

  lemma CodesEqual(a: seq<Tile>, b: seq<Tile>)
    requires |a| == |b|
    ensures Codes(a) == Codes(b) <==> Changed(a, b) == {}
  {
    if Codes(a) == Codes(b) {
      forall n | 0 <= n < |a|
        ensures a[n] == b[n]
      {
        assert Codes(a)[n] == Codes(b)[n];
        CodesDiffer(a[n], b[n]);
      }
    }
    if Changed(a, b) == {} {
      forall n | 0 <= n < |a|
        ensures a[n] == b[n]
      {
        assert n !in Changed(a, b);
      }
      assert a == b;
    }
  }

  /** A once-per-second pass sends no difference, so it leaves a client in step exactly when no bomb had expired. */
  lemma PassUnseenIff(m: Mirrored, now: int)
    requires InStep(m) && m.client == Codes(m.server.grid)
    ensures var r := MirrorStep(m, SecondPass(now));
      r.client == m.client && (r.client == Codes(r.server.grid) <==> CountExpired(m.server.bombs, now) == 0)
  {
    PassChanges(m.server, now, 0);
    PassChangesAtLeast(m.server, now);
    HalvingLaw(m.server.bombs, now);
    CodesEqual(m.server.grid, BombPass(m.server, now, 0).grid);
  }

  /** A disconnection leaves a client in step exactly when the player was not shown: dead, or on a bomb. */
  lemma DisconnectUnseenIff(m: Mirrored, i: int)
    requires InStep(m) && m.client == Codes(m.server.grid) && 0 <= i < PLAYER_NUM
    ensures var s := m.server; var r := MirrorStep(m, Disconnect(i));
      && r.client == m.client && !Alive(r.server, i)
      && (r.client == Codes(r.server.grid) <==> !Alive(s, i) || At(s, s.players[i].pos).Bomb?)
  {
    var s := m.server;
    var r := Evict(s, i);
    EvictEffect(s, i);
    CodesEqual(s.grid, r.grid);
    var c := s.players[i].pos;
    assert At(s, c) != At(r, c) ==> Index(s.w, s.h, c) in Changed(s.grid, r.grid);
    forall n | n in Changed(s.grid, r.grid)
      ensures CoordOf(s.w, n) == c && At(s, c) == PlayerTile(i)
    {
      CoordOfInside(s.w, s.h, n);
      assert At(r, CoordOf(s.w, n)) != At(s, CoordOf(s.w, n));
    }
    if Changed(s.grid, r.grid) != {} {
      var n :| n in Changed(s.grid, r.grid);
      assert IsPlayer(At(s, c));
    }
  }

  ghost predicate MirrorEventsOf(e: MirrorEvent, events: seq<Event>)
    requires LegalMirrorEvent(e)
  {
    match e
    case TickSent(acts, clock, now, _) => TickEvents(acts, clock, now, events)
    case SecondPass(now) => events == [BombsTick(now)]
    case BoardSent(_) => events == []
    case Disconnect(i) => events == [Leaves(i)]
  }

  /** On the server's side ticks, passes and disconnections are runs of the game; sending changes nothing. */
  lemma MirrorPlays(m: Mirrored, e: MirrorEvent, events: seq<Event>)
    requires InStep(m) && LegalMirrorEvent(e) && MirrorEventsOf(e, events)
    ensures forall x :: x in events ==> LegalEvent(x)
    ensures MirrorStep(m, e).server == Run(m.server, events)
  {
    match e
    case TickSent(acts, clock, now, _) => TickIsRun(m.server, acts, clock, now, events);
    case SecondPass(now) => RunOne(m.server, BombsTick(now));
    case BoardSent(_) =>
    case Disconnect(i) => RunOne(m.server, Leaves(i));
  }

  // ---- when only passes and disconnections can leave a trace --------------------------------------

  /** What action selection and at most 34 explosions guarantee of a tick. */
  ghost predicate Capped(m: Mirrored, e: MirrorEvent)
    requires Inv(m.server) && LegalMirrorEvent(e)
  {
    e.TickSent? ==>
      && CountDrops(e.acts, |e.acts|) <= PLAYER_NUM
      && |e.acts| - CountDrops(e.acts, |e.acts|) <= PLAYER_NUM
      && |TickExploded(m.server, e.acts, e.clock, e.now)| <= 34
  }

  /** 2 * 4 + 4 + 7 * 34 + 4 == 254: the one-byte count of a capped tick does not wrap, so nothing is left out. */
  lemma CappedTickSendsAll(m: Mirrored, e: MirrorEvent)
    requires Inv(m.server) && m.server.w <= 255 && m.server.h <= 255 && LegalMirrorEvent(e) && e.TickSent? && Capped(m, e)
    ensures var r := Tick(m.server, e.acts, e.clock, e.now);
      && |r.grid| == |m.server.grid| && |Changed(m.server.grid, r.grid)| <= 255
      && Unsent(m.server.w, Diff(m.server.w, r.grid, m.server.grid, |r.grid|)) == {}
    ensures MirrorStep(m, e).stale <= m.stale
  {
    TickChanges(m.server, e.acts, e.clock, e.now);
    DiffMinimal(m.server.w, Tick(m.server, e.acts, e.clock, e.now).grid, m.server.grid);
  }

  /** The cells changed by a once-per-second pass or a disconnection since the last whole board. */
  ghost function Touched(m: Mirrored, t: set<nat>, e: MirrorEvent): set<nat>
    requires Inv(m.server) && LegalMirrorEvent(e)
  {
    match e
    case TickSent(_, _, _, _) => t
    case SecondPass(now) => PassChanges(m.server, now, 0); t + Changed(m.server.grid, BombPass(m.server, now, 0).grid)
    case BoardSent(_) => {}
    case Disconnect(i) => t + Changed(m.server.grid, Evict(m.server, i).grid)
  }

  ghost predicate CappedRun(m: Mirrored, events: seq<MirrorEvent>)
    requires InStep(m) && forall e :: e in events ==> LegalMirrorEvent(e)
    decreases |events|
  {
    events == [] || (
      && Capped(m, events[0])
      && (StepInStep(m, events[0]); CappedRun(MirrorStep(m, events[0]), events[1..])))
  }

  /** The state after a run and the cells it may have left out of step. */
  ghost function MirrorRun(m: Mirrored, t: set<nat>, events: seq<MirrorEvent>): (Mirrored, set<nat>)
    requires InStep(m) && forall e :: e in events ==> LegalMirrorEvent(e)
    decreases |events|
  {
    if events == [] then (m, t)
    else
      StepInStep(m, events[0]);
      MirrorRun(MirrorStep(m, events[0]), Touched(m, t, events[0]), events[1..])
  }

  /** Over every run the client agrees with the server on every cell whose last change it was sent. */
  lemma {:induction false} RunInStep(m: Mirrored, t: set<nat>, events: seq<MirrorEvent>)
    requires InStep(m) && forall e :: e in events ==> LegalMirrorEvent(e)
    ensures InStep(MirrorRun(m, t, events).0)
    decreases |events|
  {
    if events != [] {
      StepInStep(m, events[0]);
      RunInStep(MirrorStep(m, events[0]), Touched(m, t, events[0]), events[1..]);
    }
  }

  lemma CappedStepStale(m: Mirrored, t: set<nat>, e: MirrorEvent)
    requires InStep(m) && m.stale <= t && LegalMirrorEvent(e) && Capped(m, e)
    ensures MirrorStep(m, e).stale <= Touched(m, t, e)
  {
    if e.TickSent? {
      CappedTickSendsAll(m, e);
    }
  }

  lemma {:induction false} CappedRunStale(m: Mirrored, t: set<nat>, events: seq<MirrorEvent>)
    requires InStep(m) && m.stale <= t && forall e :: e in events ==> LegalMirrorEvent(e)
    requires CappedRun(m, events)
    ensures var (r, touched) := MirrorRun(m, t, events); r.stale <= touched
    decreases |events|
  {
    if events != [] {
      StepInStep(m, events[0]);
      CappedStepStale(m, t, events[0]);
      CappedRunStale(MirrorStep(m, events[0]), Touched(m, t, events[0]), events[1..]);
    }
  }

  /** Over every run of capped ticks the client agrees with the server on every cell not changed by a
      once-per-second pass or a disconnection since the last whole board. */
  lemma MirrorHolds(m: Mirrored, t: set<nat>, events: seq<MirrorEvent>)
    requires InStep(m) && m.stale <= t && forall e :: e in events ==> LegalMirrorEvent(e)
    requires CappedRun(m, events)
    ensures var (r, touched) := MirrorRun(m, t, events);
      && |r.client| == |r.server.grid|
      && forall n :: 0 <= n < |r.client| && n !in touched ==> r.client[n] == Code(r.server.grid[n])
  {
    RunInStep(m, t, events);
    CappedRunStale(m, t, events);
  }
}
