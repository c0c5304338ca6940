/** Whole runs: any order of moves, bomb drops, bomb passes and disconnections, and the server tick
    made of player actions followed by one bomb pass. */
module Runs {
  import opened Board
  import opened Rules
  import opened BombList
  import opened Blasts
  import opened Changes

  datatype Event =
    | Moves(a: Action, i: int)
    | Drops(i: int, now: int)
    | BombsTick(now: int)
    | Leaves(i: int)

  predicate LegalEvent(e: Event) {
    e.BombsTick? || 0 <= e.i < PLAYER_NUM
  }

  ghost function Step(s: State, e: Event): (r: State)
    requires Shape(s) && LegalEvent(e)
    ensures Shape(r)
  {
    match e
    case Moves(a, i) => Move(s, a, i)
    case Drops(i, now) => Drop(s, i, now)
    case BombsTick(now) => BombPass(s, now, 0)
    case Leaves(i) => Evict(s, i)
  }

  ghost function Run(s: State, events: seq<Event>): (r: State)
    requires Shape(s) && forall e :: e in events ==> LegalEvent(e)
    ensures Shape(r)
    decreases |events|
  {
    if events == [] then s else Run(Step(s, events[0]), events[1..])
  }

  lemma MoveOneWay(s: State, a: Action, i: int)
    requires Inv(s) && 0 <= i < PLAYER_NUM
    ensures OneWay(s, Move(s, a, i))
  {
    MoveEffect(s, a, i);
  }

  lemma DropOneWay(s: State, i: int, now: int)
    requires Inv(s) && 0 <= i < PLAYER_NUM
    ensures OneWay(s, Drop(s, i, now))
  {
  }

  lemma EvictOneWay(s: State, i: int)
    requires Inv(s) && 0 <= i < PLAYER_NUM
    ensures OneWay(s, Evict(s, i))
  {
  }

  lemma StepKeepsInv(s: State, e: Event)
    requires Inv(s) && LegalEvent(e)
    ensures Inv(Step(s, e)) && OneWay(s, Step(s, e))
  {
    match e
    case Moves(a, i) =>
      MoveKeepsInv(s, a, i);
      MoveOneWay(s, a, i);
    case Drops(i, now) =>
      DropKeepsInv(s, i, now);
      DropOneWay(s, i, now);
    case BombsTick(now) =>
      PassKeepsInv(s, now, 0);
    case Leaves(i) =>
      EvictKeepsInv(s, i);
      EvictOneWay(s, i);
  }

  /** Every run, in any order of events, keeps the invariant; walls only disappear and nobody revives. */
  lemma {:induction false} RunKeepsInv(s: State, events: seq<Event>)
    requires Inv(s) && forall e :: e in events ==> LegalEvent(e)
    ensures Inv(Run(s, events)) && OneWay(s, Run(s, events))
    decreases |events|
  {
    if events != [] {
      var t := Step(s, events[0]);
      StepKeepsInv(s, events[0]);
      RunKeepsInv(t, events[1..]);
      OneWayTrans(s, t, Run(t, events[1..]));
    }
  }

  // ---- the tick: `update_game_board` -----------------------------------------------------

  datatype PlayerAction = PlayerAction(id: int, action: Action)

  predicate LegalActions(acts: seq<PlayerAction>) {
    forall k :: 0 <= k < |acts| ==> 0 <= acts[k].id < PLAYER_NUM
  }

  function ActOne(s: State, act: PlayerAction, now: int): (r: State)
    requires Shape(s) && 0 <= act.id < PLAYER_NUM
    ensures Shape(r)
  {
    if act.action.PlaceBomb? then Drop(s, act.id, now) else Move(s, act.action, act.id)
  }

  /** The state after the first n actions; clock[k] is the time read by the k-th one. */
  function ActUpTo(s: State, acts: seq<PlayerAction>, clock: seq<int>, n: nat): (r: State)
    requires Shape(s) && LegalActions(acts) && n <= |acts| && |clock| == |acts|
    ensures Shape(r)
  {
    if n == 0 then s else ActOne(ActUpTo(s, acts, clock, n - 1), acts[n - 1], clock[n - 1])
  }

  ghost function Tick(s: State, acts: seq<PlayerAction>, clock: seq<int>, now: int): (r: State)
    requires Shape(s) && LegalActions(acts) && |clock| == |acts|
    ensures Shape(r)
  {
    BombPass(ActUpTo(s, acts, clock, |acts|), now, 0)
  }

  ghost function TickExploded(s: State, acts: seq<PlayerAction>, clock: seq<int>, now: int): seq<BombRecord>
    requires Shape(s) && LegalActions(acts) && |clock| == |acts|
  {
    Exploded(ActUpTo(s, acts, clock, |acts|).bombs, now, 0)
  }

  /** The events of a tick: for each action a bomb drop or a move at its time, then one bomb pass. */
  ghost predicate TickEvents(acts: seq<PlayerAction>, clock: seq<int>, now: int, events: seq<Event>)
    requires LegalActions(acts) && |clock| == |acts|
  {
    && |events| == |acts| + 1 && events[|acts|] == BombsTick(now)
    && forall k :: 0 <= k < |acts| ==>
      events[k] == if acts[k].action == PlaceBomb then Drops(acts[k].id, clock[k]) else Moves(acts[k].action, acts[k].id)
  }

  lemma RunOne(s: State, e: Event)
    requires Shape(s) && LegalEvent(e)
    ensures Run(s, [e]) == Step(s, e)
  {
    assert [e][1..] == [];
    assert Run(Step(s, e), []) == Step(s, e);
  }

  lemma {:induction false} RunSnoc(s: State, events: seq<Event>, e: Event)
    requires Shape(s) && LegalEvent(e) && forall x :: x in events ==> LegalEvent(x)
    ensures Run(s, events + [e]) == Step(Run(s, events), e)
    decreases |events|
  {
    if events == [] {
      assert [] + [e] == [e];
      RunOne(s, e);
    } else {
      RunSnoc(Step(s, events[0]), events[1..], e);
      assert (events + [e])[1..] == events[1..] + [e];
    }
  }

  lemma {:induction false} ActUpToIsRun(s: State, acts: seq<PlayerAction>, clock: seq<int>, now: int, events: seq<Event>, n: nat)
    requires Shape(s) && LegalActions(acts) && |clock| == |acts| && n <= |acts| && TickEvents(acts, clock, now, events)
    ensures forall e :: e in events[..n] ==> LegalEvent(e)
    ensures ActUpTo(s, acts, clock, n) == Run(s, events[..n])
  {
    if n > 0 {
      ActUpToIsRun(s, acts, clock, now, events, n - 1);
      assert LegalEvent(events[n - 1]);
      assert events[..n] == events[..n - 1] + [events[n - 1]];
      RunSnoc(s, events[..n - 1], events[n - 1]);
    }
  }

  /** A tick is a run: the actions in their order, and after them the bomb pass. */
  lemma TickIsRun(s: State, acts: seq<PlayerAction>, clock: seq<int>, now: int, events: seq<Event>)
    requires Shape(s) && LegalActions(acts) && |clock| == |acts| && TickEvents(acts, clock, now, events)
    ensures forall e :: e in events ==> LegalEvent(e)
    ensures Tick(s, acts, clock, now) == Run(s, events)
  {
    ActUpToIsRun(s, acts, clock, now, events, |acts|);
    assert events == events[..|acts|] + [BombsTick(now)];
    RunSnoc(s, events[..|acts|], BombsTick(now));
  }

  function CountDrops(acts: seq<PlayerAction>, n: nat): (k: nat)
    requires n <= |acts|
    ensures k <= n
  {
    if n == 0 then 0 else CountDrops(acts, n - 1) + if acts[n - 1].action.PlaceBomb? then 1 else 0
  }

  lemma ActOneKeepsInv(s: State, act: PlayerAction, now: int)
    requires Inv(s) && 0 <= act.id < PLAYER_NUM
    ensures var r := ActOne(s, act, now);
      && Inv(r) && OneWay(s, r) && |r.grid| == |s.grid|
      && |Changed(s.grid, r.grid)| <= if act.action.PlaceBomb? then 1 else 2
  {
    if act.action.PlaceBomb? {
      StepKeepsInv(s, Drops(act.id, now));
      DropChanges(s, act.id, now);
    } else {
      StepKeepsInv(s, Moves(act.action, act.id));
      MoveChanges(s, act.action, act.id);
    }
  }

  /** A valid state that came from s by changing at most n cells. */
  ghost predicate ChangedAtMost(s: State, r: State, n: int) {
    Inv(r) && OneWay(s, r) && |r.grid| == |s.grid| && |Changed(s.grid, r.grid)| <= n
  }

  lemma ThenOneKeepsInv(s: State, t: State, act: PlayerAction, now: int, n: int)
    requires ChangedAtMost(s, t, n) && 0 <= act.id < PLAYER_NUM
    ensures ChangedAtMost(s, ActOne(t, act, now), n + if act.action.PlaceBomb? then 1 else 2)
  {
    var r := ActOne(t, act, now);
    ActOneKeepsInv(t, act, now);
    OneWayTrans(s, t, r);
    ChangedTwice(s.grid, t.grid, r.grid);
  }

  lemma {:induction false} ActUpToKeepsInv(s: State, acts: seq<PlayerAction>, clock: seq<int>, n: nat)
    requires Inv(s) && LegalActions(acts) && n <= |acts| && |clock| == |acts|
    ensures ChangedAtMost(s, ActUpTo(s, acts, clock, n), 2 * n - CountDrops(acts, n))
  {
    if n == 0 {
      assert Changed(s.grid, s.grid) == {};
    } else {
      var t := ActUpTo(s, acts, clock, n - 1);
      ActUpToKeepsInv(s, acts, clock, n - 1);
      ThenOneKeepsInv(s, t, acts[n - 1], clock[n - 1], 2 * (n - 1) - CountDrops(acts, n - 1));
    }
  }

  /** A tick with m moves, b bomb drops and e explosions keeps the invariant and changes at most
      2m + b + 9e cells, and at most 2m + b + 7e + 4. */
  lemma TickChanges(s: State, acts: seq<PlayerAction>, clock: seq<int>, now: int)
    requires Inv(s) && LegalActions(acts) && |clock| == |acts|
    ensures var r := Tick(s, acts, clock, now); var b := CountDrops(acts, |acts|);
      && Inv(r) && OneWay(s, r) && |r.grid| == |s.grid|
      && |Changed(s.grid, r.grid)| <= 2 * (|acts| - b) + b + 9 * |TickExploded(s, acts, clock, now)|
      && |Changed(s.grid, r.grid)| <= 2 * (|acts| - b) + b + 7 * |TickExploded(s, acts, clock, now)| + PLAYER_NUM
  {
    var t := ActUpTo(s, acts, clock, |acts|);
    ActUpToKeepsInv(s, acts, clock, |acts|);
    PassKeepsInv(t, now, 0);
    PassChanges(t, now, 0);
    AtMostFourShown(t);
    OneWayTrans(s, t, BombPass(t, now, 0));
    ChangedTwice(s.grid, t.grid, BombPass(t, now, 0).grid);
  }
}
