/** From a received batch to the clients: action selection, the server tick and the message it sends. */
module TickPipeline {
  import opened Board
  import opened Rules
  import opened Changes
  import opened Runs
  import opened Wire
  import opened QuickSort
  import opened Selection
  import opened Mirror

  /** Actions of players of the game, all of them bomb drops or none. */
  predicate OfKind(r: seq<PlayerAction>, kind: Kind) {
    forall x :: 0 <= x < |r| ==> 0 <= r[x].id < PLAYER_NUM && (r[x].action.PlaceBomb? <==> kind.BombKind?)
  }

  lemma {:induction false} KeptHaveKind(batch: seq<ActionMessage>, last: seq<int>, i: nat, kind: Kind)
    requires Legal(batch, last) && i <= |batch| && kind != OtherKind
    ensures OfKind(KeptOf(batch, last, i, kind), kind)
    decreases |batch| - i
  {
    if i < |batch| {
      KeptHaveKind(batch, last, i + 1, kind);
      if KindOf(batch[i]) == kind {
        assert OfKind(KeptOf(batch, last, i + 1, kind) + [Act(batch[i])], kind);
      }
    }
  }

  function Ids(r: seq<PlayerAction>): set<int> {
    set x | 0 <= x < |r| :: r[x].id
  }

  lemma {:induction false} DistinctIds(r: seq<PlayerAction>)
    requires forall x, y :: 0 <= x < y < |r| ==> r[x].id != r[y].id
    ensures |Ids(r)| == |r|
    decreases |r|
  {
    if r != [] {
      var front, id := r[..|r| - 1], r[|r| - 1].id;
      DistinctIds(front);
      assert Ids(r) == Ids(front) + {id} by {
        assert r == front + [r[|r| - 1]];
      }
      assert id !in Ids(front);
    }
  }

  lemma FourAtMost(r: seq<PlayerAction>, kind: Kind)
    requires OfKind(r, kind) && forall x, y :: 0 <= x < y < |r| ==> r[x].id != r[y].id
    ensures |r| <= PLAYER_NUM
  {
    DistinctIds(r);
    SubsetSize(Ids(r), {0, 1, 2, 3});
  }

  lemma {:induction false} CountDropsSplit(moves: seq<PlayerAction>, drops: seq<PlayerAction>, n: nat)
    requires forall x :: 0 <= x < |moves| ==> !moves[x].action.PlaceBomb?
    requires forall x :: 0 <= x < |drops| ==> drops[x].action.PlaceBomb?
    requires n <= |moves| + |drops|
    ensures CountDrops(moves + drops, n) == if n <= |moves| then 0 else n - |moves|
    decreases n
  {
    if n > 0 {
      CountDropsSplit(moves, drops, n - 1);
    }
  }

  /** Whatever a batch holds, the actions taken from it (the kept moves, then the kept bomb drops) are at most
      four moves and four drops of legal players. */
  lemma SelectedActions(batch: seq<ActionMessage>, last: seq<int>)
    requires Legal(batch, last)
    ensures var acts := KeptOf(batch, last, 0, MoveKind) + KeptOf(batch, last, 0, BombKind);
      && LegalActions(acts)
      && CountDrops(acts, |acts|) <= PLAYER_NUM && |acts| - CountDrops(acts, |acts|) <= PLAYER_NUM
  {
    var moves, drops := KeptOf(batch, last, 0, MoveKind), KeptOf(batch, last, 0, BombKind);
    KeptHaveKind(batch, last, 0, MoveKind);
    KeptHaveKind(batch, last, 0, BombKind);
    KeptListsDistinct(batch, last, 0, MoveKind);
    KeptListsDistinct(batch, last, 0, BombKind);
    FourAtMost(moves, MoveKind);
    FourAtMost(drops, BombKind);
    CountDropsSplit(moves, drops, |moves| + |drops|);
  }

  /** A tick on the actions selected from any batch, with at most 34 explosions, leaves nothing out: clients
      that were in step everywhere are in step everywhere afterwards. */
  lemma SelectedTickKeepsMirror(m: Mirrored, batch: seq<ActionMessage>, last: seq<int>, clock: seq<int>, now: int, num: word)
    requires InStep(m) && m.stale == {} && Legal(batch, last)
    requires |clock| == |KeptOf(batch, last, 0, MoveKind) + KeptOf(batch, last, 0, BombKind)|
    requires LegalActions(KeptOf(batch, last, 0, MoveKind) + KeptOf(batch, last, 0, BombKind))
    requires |TickExploded(m.server, KeptOf(batch, last, 0, MoveKind) + KeptOf(batch, last, 0, BombKind), clock, now)| <= 34
    ensures var e := TickSent(KeptOf(batch, last, 0, MoveKind) + KeptOf(batch, last, 0, BombKind), clock, now, num);
      LegalMirrorEvent(e) && InStep(MirrorStep(m, e)) && MirrorStep(m, e).stale == {}
  {
    var e := TickSent(KeptOf(batch, last, 0, MoveKind) + KeptOf(batch, last, 0, BombKind), clock, now, num);
    SelectedActions(batch, last);
    StepInStep(m, e);
    CappedTickSendsAll(m, e);
  }
}
