/** Action selection for one server tick (`get_player_actions`): a backward scan over the received batch
    keeps at most one move and one bomb drop a player. */
module Selection {
  import opened Board
  import opened Rules
  import opened Runs
  import opened Wire
  import opened Window
  import opened QuickSort

  /** The GAME_ACTION a message carries, from its three bits. */
  function ActionOf(code: int): Action {
    match code
    case 0 => Up
    case 1 => Right
    case 2 => Down
    case 3 => Left
    case 4 => PlaceBomb
    case 5 => NoAction
    case 6 => ChatModeStart
    case _ => Quit
  }

  datatype Kind = MoveKind | BombKind | OtherKind

  function KindOf(m: ActionMessage): Kind {
    if IsMove(ActionOf(m.action)) then MoveKind
    else if ActionOf(m.action).PlaceBomb? then BombKind
    else OtherKind
  }

  predicate InWindow(last: int, m: ActionMessage) {
    IsNext(last, m.num, LIMIT_LAST_NUM_MESSAGE_CLIENT)
  }

  // ---- which messages a batch keeps, without the scan ----------------------------------------------

  predicate Legal(batch: seq<ActionMessage>, last: seq<int>) {
    LegalIds(batch) && |last| == PLAYER_NUM
  }

  /** A move or bomb message inside its player's starting window. */
  predicate Good(batch: seq<ActionMessage>, last: seq<int>, j: int)
    requires Legal(batch, last) && 0 <= j < |batch|
  {
    !KindOf(batch[j]).OtherKind? && InWindow(last[batch[j].id], batch[j])
  }

  /** The latest good message of its player. */
  ghost predicate First(batch: seq<ActionMessage>, last: seq<int>, k: int)
    requires Legal(batch, last) && 0 <= k < |batch|
  {
    && Good(batch, last, k)
    && forall m :: k < m < |batch| && batch[m].id == batch[k].id ==> !Good(batch, last, m)
  }

  /** An earlier message of the same player, a move where k is a bomb or the reverse, inside the window as
      message k has moved it. */
  predicate Follows(batch: seq<ActionMessage>, j: int, k: int)
    requires 0 <= j < |batch| && 0 <= k < |batch|
  {
    && j < k && batch[k].id == batch[j].id
    && !KindOf(batch[j]).OtherKind? && KindOf(batch[j]) != KindOf(batch[k])
    && InWindow(batch[k].num, batch[j])
  }

  ghost predicate Eligible(batch: seq<ActionMessage>, last: seq<int>, j: int)
    requires Legal(batch, last) && 0 <= j < |batch|
  {
    First(batch, last, j) || exists k :: j < k < |batch| && First(batch, last, k) && Follows(batch, j, k)
  }

  /** The message is kept: the latest eligible one of its player and kind. */
  ghost predicate Kept(batch: seq<ActionMessage>, last: seq<int>, j: int)
    requires Legal(batch, last) && 0 <= j < |batch|
  {
    Eligible(batch, last, j) && !HasKind(batch, last, j + 1, batch[j].id, KindOf(batch[j]))
  }

  /** From index i on, player p has an eligible message of the kind. */
  ghost predicate HasKind(batch: seq<ActionMessage>, last: seq<int>, i: int, p: int, kind: Kind)
    requires Legal(batch, last) && 0 <= i
  {
    exists j :: i <= j < |batch| && batch[j].id == p && KindOf(batch[j]) == kind && Eligible(batch, last, j)
  }

  function Act(m: ActionMessage): PlayerAction {
    PlayerAction(m.id, ActionOf(m.action))
  }

  /** The kept actions of a kind from index i on, the latest first. */
  ghost function KeptOf(batch: seq<ActionMessage>, last: seq<int>, i: nat, kind: Kind): seq<PlayerAction>
    requires Legal(batch, last) && i <= |batch|
    decreases |batch| - i
  {
    if i == |batch| then []
    else
      KeptOf(batch, last, i + 1, kind)
      + if Kept(batch, last, i) && KindOf(batch[i]) == kind then [Act(batch[i])] else []
  }

  ghost predicate HasFirst(batch: seq<ActionMessage>, last: seq<int>, i: int, p: int)
    requires Legal(batch, last) && 0 <= i
  {
    exists k :: i <= k < |batch| && batch[k].id == p && First(batch, last, k)
  }

  /** n is player p's last number once the messages from index i on are scanned: that of its first kept one. */
  ghost predicate LastAfter(batch: seq<ActionMessage>, last: seq<int>, i: int, p: int, n: int)
    requires Legal(batch, last) && 0 <= i && 0 <= p < PLAYER_NUM
  {
    && (forall k :: i <= k < |batch| && batch[k].id == p && First(batch, last, k) ==> n == batch[k].num)
    && (!HasFirst(batch, last, i, p) ==> n == last[p])
  }

  // ---- one message further back ----------------------------------------------------------------

  lemma FirstIsUnique(batch: seq<ActionMessage>, last: seq<int>, j: int, k: int)
    requires Legal(batch, last) && 0 <= j < |batch| && 0 <= k < |batch|
    requires First(batch, last, j) && First(batch, last, k) && batch[j].id == batch[k].id
    ensures j == k
  {
  }

  lemma EligibleHasFirst(batch: seq<ActionMessage>, last: seq<int>, i: int, p: int, kind: Kind)
    requires Legal(batch, last) && 0 <= i && HasKind(batch, last, i, p, kind)
    ensures HasFirst(batch, last, i, p)
  {
    var j :| i <= j < |batch| && batch[j].id == p && KindOf(batch[j]) == kind && Eligible(batch, last, j);
    if !First(batch, last, j) {
      var k :| j < k < |batch| && First(batch, last, k) && Follows(batch, j, k);
    }
  }

  lemma HasGood(batch: seq<ActionMessage>, last: seq<int>, i: int, p: int, m: int)
    requires Legal(batch, last) && 0 <= i <= m < |batch| && batch[m].id == p && Good(batch, last, m)
    ensures HasFirst(batch, last, i, p)
    decreases |batch| - m
  {
    if !First(batch, last, m) {
      var k :| m < k < |batch| && batch[k].id == p && Good(batch, last, k);
      HasGood(batch, last, i, p, k);
    }
  }

  /** Message i is eligible exactly when it is a move or bomb message in the player's current window and, once
      the player has a first message, of the other kind. */
  lemma EligibleNow(batch: seq<ActionMessage>, last: seq<int>, i: nat, cur: int)
    requires Legal(batch, last) && i < |batch| && LastAfter(batch, last, i + 1, batch[i].id, cur)
    ensures var p, kind := batch[i].id, KindOf(batch[i]);
      && (Eligible(batch, last, i) ==> InWindow(cur, batch[i]) && !kind.OtherKind?)
      && (InWindow(cur, batch[i]) && !kind.OtherKind? ==> Eligible(batch, last, i) || HasKind(batch, last, i + 1, p, kind))
      && (First(batch, last, i) <==> !HasFirst(batch, last, i + 1, p) && InWindow(cur, batch[i]) && !kind.OtherKind?)
  {
    var p := batch[i].id;
    if HasFirst(batch, last, i + 1, p) {
      var k :| i + 1 <= k < |batch| && batch[k].id == p && First(batch, last, k);
      assert !First(batch, last, i);
      if Eligible(batch, last, i) {
        var k' :| i < k' < |batch| && First(batch, last, k') && Follows(batch, i, k');
        FirstIsUnique(batch, last, k, k');
      }
      if InWindow(cur, batch[i]) && !KindOf(batch[i]).OtherKind? {
        if KindOf(batch[i]) == KindOf(batch[k]) {
          assert Eligible(batch, last, k);
        } else {
          assert Follows(batch, i, k);
        }
      }
    } else {
      forall m | i < m < |batch| && batch[m].id == p
        ensures !Good(batch, last, m)
      {
        if Good(batch, last, m) {
          HasGood(batch, last, i + 1, p, m);
        }
      }
    }
  }

  /** What the scan does with message i is what the definitions say of it. */
  lemma ScanStep(batch: seq<ActionMessage>, last: seq<int>, i: nat, cur: int)
    requires Legal(batch, last) && i < |batch| && LastAfter(batch, last, i + 1, batch[i].id, cur)
    ensures var p, kind := batch[i].id, KindOf(batch[i]);
      var keep := InWindow(cur, batch[i]) && !kind.OtherKind? && !HasKind(batch, last, i + 1, p, kind);
      var other := if kind.MoveKind? then BombKind else MoveKind;
      && (Kept(batch, last, i) <==> keep)
      && (HasKind(batch, last, i, p, kind) <==> HasKind(batch, last, i + 1, p, kind) || keep)
      && LastAfter(batch, last, i, p, if keep && !HasKind(batch, last, i + 1, p, other) then batch[i].num else cur)
  {
    var p, kind := batch[i].id, KindOf(batch[i]);
    var other := if kind.MoveKind? then BombKind else MoveKind;
    EligibleNow(batch, last, i, cur);
    if HasKind(batch, last, i + 1, p, kind) {
      EligibleHasFirst(batch, last, i + 1, p, kind);
    }
    if HasKind(batch, last, i + 1, p, other) {
      EligibleHasFirst(batch, last, i + 1, p, other);
    }
    if HasFirst(batch, last, i + 1, p) {
      var k :| i + 1 <= k < |batch| && batch[k].id == p && First(batch, last, k);
      assert Eligible(batch, last, k);
    }
  }

  /** Other players and kinds do not notice message i. */
  lemma ScanStepElsewhere(batch: seq<ActionMessage>, last: seq<int>, i: nat, q: int, kind: Kind, cur: int)
    requires Legal(batch, last) && i < |batch| && 0 <= q < PLAYER_NUM
    ensures q != batch[i].id || kind != KindOf(batch[i]) ==>
      (HasKind(batch, last, i, q, kind) <==> HasKind(batch, last, i + 1, q, kind))
    ensures q != batch[i].id && LastAfter(batch, last, i + 1, q, cur) ==> LastAfter(batch, last, i, q, cur)
  {
  }

  // ---- the scan itself ---------------------------------------------------------------------

  function CountTrue(s: seq<bool>): (n: nat)
    ensures n <= |s|
  {
    if s == [] then 0 else CountTrue(s[..|s| - 1]) + if s[|s| - 1] then 1 else 0
  }

  lemma {:induction false} CountTrueSet(s: seq<bool>, i: nat)
    requires i < |s| && !s[i]
    ensures CountTrue(s[i := true]) == CountTrue(s) + 1
  {
    var n := |s| - 1;
    if i < n {
      assert s[i := true][..n] == s[..n][i := true];
      CountTrueSet(s[..n], i);
    } else {
      assert s[i := true][..n] == s[..n];
    }
  }

  lemma {:induction false} CountTrueFull(s: seq<bool>, i: nat)
    requires i < |s| && CountTrue(s) == |s|
    ensures s[i]
  {
    if i < |s| - 1 {
      CountTrueFull(s[..|s| - 1], i);
    }
  }

  lemma {:induction false} CountTrueNone(s: seq<bool>)
    requires forall k :: 0 <= k < |s| ==> !s[k]
    ensures CountTrue(s) == 0
  {
    if s != [] {
      CountTrueNone(s[..|s| - 1]);
    }
  }

  /** The scan has dealt with the messages from index i on: the lists, the flags and the last numbers. */
  ghost predicate Scanned(batch: seq<ActionMessage>, last: seq<int>, i: nat,
                          moves: seq<PlayerAction>, bombs: seq<PlayerAction>,
                          moved: seq<bool>, bombed: seq<bool>, now: seq<int>) {
    && Legal(batch, last) && i <= |batch| && |moved| == |bombed| == |now| == PLAYER_NUM
    && moves == KeptOf(batch, last, i, MoveKind) && bombs == KeptOf(batch, last, i, BombKind)
    && |moves| == CountTrue(moved) && |bombs| == CountTrue(bombed)
    && (forall p :: 0 <= p < PLAYER_NUM ==> (moved[p] <==> HasKind(batch, last, i, p, MoveKind)))
    && (forall p :: 0 <= p < PLAYER_NUM ==> (bombed[p] <==> HasKind(batch, last, i, p, BombKind)))
    && (forall p :: 0 <= p < PLAYER_NUM ==> LastAfter(batch, last, i, p, now[p]))
  }

  lemma ScanStepAll(batch: seq<ActionMessage>, last: seq<int>, i: nat, now: seq<int>)
    requires Legal(batch, last) && i < |batch| && |now| == PLAYER_NUM
    requires forall p :: 0 <= p < PLAYER_NUM ==> LastAfter(batch, last, i + 1, p, now[p])
    ensures forall q, kind :: 0 <= q < PLAYER_NUM && (q != batch[i].id || kind != KindOf(batch[i])) ==>
      (HasKind(batch, last, i, q, kind) <==> HasKind(batch, last, i + 1, q, kind))
    ensures forall q :: 0 <= q < PLAYER_NUM && q != batch[i].id ==> LastAfter(batch, last, i, q, now[q])
  {
    forall q, kind | 0 <= q < PLAYER_NUM
      ensures q != batch[i].id || kind != KindOf(batch[i]) ==>
        (HasKind(batch, last, i, q, kind) <==> HasKind(batch, last, i + 1, q, kind))
      ensures q != batch[i].id ==> LastAfter(batch, last, i, q, now[q])
    {
      ScanStepElsewhere(batch, last, i, q, kind, now[q]);
    }
  }

  lemma ScannedSkip(batch: seq<ActionMessage>, last: seq<int>, i: nat, moves: seq<PlayerAction>,
                    bombs: seq<PlayerAction>, moved: seq<bool>, bombed: seq<bool>, now: seq<int>)
    requires i < |batch| && Scanned(batch, last, i + 1, moves, bombs, moved, bombed, now)
    requires var m := batch[i];
      !InWindow(now[m.id], m) || !((KindOf(m).MoveKind? && !moved[m.id]) || (KindOf(m).BombKind? && !bombed[m.id]))
    ensures Scanned(batch, last, i, moves, bombs, moved, bombed, now)
  {
    ScanStep(batch, last, i, now[batch[i].id]);
    ScanStepAll(batch, last, i, now);
  }

  lemma ScannedMove(batch: seq<ActionMessage>, last: seq<int>, i: nat, moves: seq<PlayerAction>,
                    bombs: seq<PlayerAction>, moved: seq<bool>, bombed: seq<bool>, now: seq<int>)
    requires i < |batch| && Scanned(batch, last, i + 1, moves, bombs, moved, bombed, now)
    requires var m := batch[i]; InWindow(now[m.id], m) && KindOf(m).MoveKind? && !moved[m.id]
    ensures var m := batch[i];
      && |moves| < PLAYER_NUM
      && Scanned(batch, last, i, moves + [Act(m)], bombs, moved[m.id := true], bombed,
                 if bombed[m.id] then now else now[m.id := m.num])
  {
    ScanStep(batch, last, i, now[batch[i].id]);
    ScanStepAll(batch, last, i, now);
    CountTrueSet(moved, batch[i].id);
  }

  lemma ScannedBomb(batch: seq<ActionMessage>, last: seq<int>, i: nat, moves: seq<PlayerAction>,
                    bombs: seq<PlayerAction>, moved: seq<bool>, bombed: seq<bool>, now: seq<int>)
    requires i < |batch| && Scanned(batch, last, i + 1, moves, bombs, moved, bombed, now)
    requires var m := batch[i]; InWindow(now[m.id], m) && KindOf(m).BombKind? && !bombed[m.id]
    ensures var m := batch[i];
      && |bombs| < PLAYER_NUM
      && Scanned(batch, last, i, moves, bombs + [Act(m)], moved, bombed[m.id := true],
                 if moved[m.id] then now else now[m.id := m.num])
  {
    ScanStep(batch, last, i, now[batch[i].id]);
    ScanStepAll(batch, last, i, now);
    CountTrueSet(bombed, batch[i].id);
  }

  ghost predicate Complete(batch: seq<ActionMessage>, last: seq<int>, i: nat)
    requires Legal(batch, last)
  {
    forall p :: 0 <= p < PLAYER_NUM ==> HasKind(batch, last, i, p, MoveKind) && HasKind(batch, last, i, p, BombKind)
  }

  /** When every player has both a move and a bomb drop, one more message changes nothing. */
  lemma CompleteStep(batch: seq<ActionMessage>, last: seq<int>, i: nat, now: seq<int>)
    requires Legal(batch, last) && i < |batch| && |now| == PLAYER_NUM && Complete(batch, last, i + 1)
    requires forall p :: 0 <= p < PLAYER_NUM ==> LastAfter(batch, last, i + 1, p, now[p])
    ensures Complete(batch, last, i)
    ensures KeptOf(batch, last, i, MoveKind) == KeptOf(batch, last, i + 1, MoveKind)
    ensures KeptOf(batch, last, i, BombKind) == KeptOf(batch, last, i + 1, BombKind)
    ensures forall p :: 0 <= p < PLAYER_NUM ==> LastAfter(batch, last, i, p, now[p])
  {
    ScanStep(batch, last, i, now[batch[i].id]);
    ScanStepAll(batch, last, i, now);
  }

  lemma {:induction false} NothingMore(batch: seq<ActionMessage>, last: seq<int>, i: nat, now: seq<int>)
    requires Legal(batch, last) && i <= |batch| && |now| == PLAYER_NUM && Complete(batch, last, i)
    requires forall p :: 0 <= p < PLAYER_NUM ==> LastAfter(batch, last, i, p, now[p])
    ensures KeptOf(batch, last, 0, MoveKind) == KeptOf(batch, last, i, MoveKind)
    ensures KeptOf(batch, last, 0, BombKind) == KeptOf(batch, last, i, BombKind)
    ensures forall p :: 0 <= p < PLAYER_NUM ==> LastAfter(batch, last, 0, p, now[p])
    decreases i
  {
    if i > 0 {
      CompleteStep(batch, last, i - 1, now);
      NothingMore(batch, last, i - 1, now);
    }
  }

  /** Four moves and four bomb drops: the scan may stop. */
  lemma ScannedEnough(batch: seq<ActionMessage>, last: seq<int>, i: nat, moves: seq<PlayerAction>,
                      bombs: seq<PlayerAction>, moved: seq<bool>, bombed: seq<bool>, now: seq<int>)
    requires Scanned(batch, last, i, moves, bombs, moved, bombed, now)
    requires |moves| == PLAYER_NUM == |bombs|
    ensures moves == KeptOf(batch, last, 0, MoveKind) && bombs == KeptOf(batch, last, 0, BombKind)
    ensures forall p :: 0 <= p < PLAYER_NUM ==> LastAfter(batch, last, 0, p, now[p])
  {
    forall p | 0 <= p < PLAYER_NUM
      ensures moved[p] && bombed[p]
    {
      CountTrueFull(moved, p);
      CountTrueFull(bombed, p);
    }
    NothingMore(batch, last, i, now);
  }

  /** Keeping message i as a move (or a bomb drop): the entry, the flag, and the last number unless an action
      of the player has already set it. */
  method KeepAction(m: ActionMessage, kept: array<PlayerAction>, count: nat, already: array<bool>,
                    other: array<bool>, last: array<int>)
    requires 0 <= m.id < PLAYER_NUM == already.Length == other.Length == last.Length
    requires count < kept.Length && already != other
    modifies kept, already, last
    ensures kept[..count + 1] == old(kept[..count]) + [Act(m)]
    ensures already[..] == old(already[..])[m.id := true]
    ensures last[..] == if old(other[m.id]) then old(last[..]) else old(last[..])[m.id := m.num]
  {
    kept[count] := Act(m);
    already[m.id] := true;
    if !other[m.id] {
      last[m.id] := m.num;
    }
  }

  /** The body of the scan for message i of the batch `b`, whose starting numbers were `l`. */
  method ScanMessage(m: ActionMessage, ghost b: seq<ActionMessage>, ghost l: seq<int>, ghost i: nat,
                     last: array<int>, moves: array<PlayerAction>, moveCount: nat,
                     bombs: array<PlayerAction>, bombCount: nat, alreadyMove: array<bool>, alreadyBomb: array<bool>)
    returns (moveCount': nat, bombCount': nat)
    requires i < |b| && m == b[i]
    requires moveCount <= moves.Length == PLAYER_NUM && bombCount <= bombs.Length == PLAYER_NUM
    requires moves != bombs && alreadyMove != alreadyBomb
    requires Scanned(b, l, i + 1, moves[..moveCount], bombs[..bombCount], alreadyMove[..], alreadyBomb[..], last[..])
    modifies last, moves, bombs, alreadyMove, alreadyBomb
    ensures moveCount' <= PLAYER_NUM && bombCount' <= PLAYER_NUM
    ensures Scanned(b, l, i, moves[..moveCount'], bombs[..bombCount'], alreadyMove[..], alreadyBomb[..], last[..])
  {
    moveCount', bombCount' := moveCount, bombCount;
    ghost var ms, bs := moves[..moveCount], bombs[..bombCount];
    ghost var moved, bombed, now := alreadyMove[..], alreadyBomb[..], last[..];
    var inWindow := InWindow(last[m.id], m);
    if inWindow && KindOf(m).MoveKind? && !alreadyMove[m.id] {
      ScannedMove(b, l, i, ms, bs, moved, bombed, now);
      KeepAction(m, moves, moveCount, alreadyMove, alreadyBomb, last);
      moveCount' := moveCount + 1;
    } else if inWindow && KindOf(m).BombKind? && !alreadyBomb[m.id] {
      ScannedBomb(b, l, i, ms, bs, moved, bombed, now);
      KeepAction(m, bombs, bombCount, alreadyBomb, alreadyMove, last);
      bombCount' := bombCount + 1;
    } else {
      ScannedSkip(b, l, i, ms, bs, moved, bombed, now);
    }
  }

  // ---- what the kept lists hold --------------------------------------------------------------------

  /** The action a message asks for, by its number. */
  predicate Means(code: int, a: Action) {
    || (code == 0 && a == Up) || (code == 1 && a == Right) || (code == 2 && a == Down) || (code == 3 && a == Left)
    || (code == 4 && a == PlaceBomb) || (code == 5 && a == NoAction)
  }

  ghost function KeptSet(batch: seq<ActionMessage>, last: seq<int>): set<int>
    requires Legal(batch, last)
  {
    set j | 0 <= j < |batch| && Kept(batch, last, j)
  }

  /** The entry stands for message j, which is kept and has one of these numbers. */
  predicate Stands(batch: seq<ActionMessage>, kept: set<int>, j: int, a: PlayerAction, codes: set<int>)
  {
    && 0 <= j < |batch| && j in kept && batch[j].action in codes
    && a.id == batch[j].id && Means(batch[j].action, a.action)
  }

  ghost predicate HasSource(batch: seq<ActionMessage>, kept: set<int>, i: int, a: PlayerAction, codes: set<int>)
  {
    exists j :: i <= j && Stands(batch, kept, j, a, codes)
  }

  ghost predicate IsListed(batch: seq<ActionMessage>, kept: set<int>, j: int, r: seq<PlayerAction>, codes: set<int>)
  {
    exists x :: 0 <= x < |r| && Stands(batch, kept, j, r[x], codes)
  }

  /** The message that a stands for came after that of b. */
  ghost predicate CameAfter(batch: seq<ActionMessage>, kept: set<int>, a: PlayerAction, b: PlayerAction, codes: set<int>)
  {
    forall j, k :: Stands(batch, kept, j, a, codes) && Stands(batch, kept, k, b, codes) ==> k < j
  }

  /** From index i on, the list holds exactly the kept messages with one of these numbers, latest first. */
  ghost predicate Lists(batch: seq<ActionMessage>, kept: set<int>, i: nat, r: seq<PlayerAction>, codes: set<int>)
  {
    && (forall x :: 0 <= x < |r| ==> HasSource(batch, kept, i, r[x], codes))
    && (forall j :: i <= j < |batch| && j in kept && batch[j].action in codes ==> IsListed(batch, kept, j, r, codes))
    && (forall x, y :: 0 <= x < y < |r| ==> CameAfter(batch, kept, r[x], r[y], codes))
  }

  /** No two kept messages of one player have numbers among these. */
  predicate Single(batch: seq<ActionMessage>, kept: set<int>, codes: set<int>) {
    forall j, k :: 0 <= j < k < |batch| && j in kept && k in kept && batch[j].id == batch[k].id ==>
      batch[j].action !in codes || batch[k].action !in codes
  }

  lemma ListsSkip(batch: seq<ActionMessage>, kept: set<int>, i: nat, r: seq<PlayerAction>, codes: set<int>)
    requires i < |batch| && Lists(batch, kept, i + 1, r, codes)
    requires i !in kept || batch[i].action !in codes
    ensures Lists(batch, kept, i, r, codes)
  {
    forall x | 0 <= x < |r|
      ensures HasSource(batch, kept, i, r[x], codes)
    {
      assert HasSource(batch, kept, i + 1, r[x], codes);
    }
  }

  lemma AddedAfter(batch: seq<ActionMessage>, kept: set<int>, i: nat, a: PlayerAction, b: PlayerAction, codes: set<int>)
    requires Single(batch, kept, codes)
    requires HasSource(batch, kept, i + 1, a, codes) && Stands(batch, kept, i, b, codes)
    ensures CameAfter(batch, kept, a, b, codes)
  {
    var s :| i + 1 <= s && Stands(batch, kept, s, a, codes);
    forall j, k | Stands(batch, kept, j, a, codes) && Stands(batch, kept, k, b, codes)
      ensures k < j
    {
      assert j == s && k == i;
    }
  }

  lemma ListsAdd(batch: seq<ActionMessage>, kept: set<int>, i: nat, r: seq<PlayerAction>, a: PlayerAction, codes: set<int>)
    requires Single(batch, kept, codes) && Lists(batch, kept, i + 1, r, codes) && Stands(batch, kept, i, a, codes)
    ensures Lists(batch, kept, i, r + [a], codes)
  {
    var all := r + [a];
    forall x | 0 <= x < |all|
      ensures HasSource(batch, kept, i, all[x], codes)
    {
      assert x < |r| ==> HasSource(batch, kept, i + 1, r[x], codes);
    }
    forall j | i <= j < |batch| && j in kept && batch[j].action in codes
      ensures IsListed(batch, kept, j, all, codes)
    {
      if j == i {
        assert all[|r|] == a;
      } else {
        assert IsListed(batch, kept, j, r, codes);
        var x :| 0 <= x < |r| && Stands(batch, kept, j, r[x], codes);
        assert all[x] == r[x];
      }
    }
    forall x, y | 0 <= x < y < |all|
      ensures CameAfter(batch, kept, all[x], all[y], codes)
    {
      if y == |r| {
        AddedAfter(batch, kept, i, r[x], a, codes);
      }
    }
  }

  lemma ListsNext(batch: seq<ActionMessage>, kept: set<int>, i: nat, rest: seq<PlayerAction>, r: seq<PlayerAction>,
                  a: PlayerAction, codes: set<int>)
    requires i < |batch| && Single(batch, kept, codes) && Lists(batch, kept, i + 1, rest, codes)
    requires if Stands(batch, kept, i, a, codes) then r == rest + [a]
             else r == rest && (i !in kept || batch[i].action !in codes)
    ensures Lists(batch, kept, i, r, codes)
  {
    if Stands(batch, kept, i, a, codes) {
      ListsAdd(batch, kept, i, rest, a, codes);
    } else {
      ListsSkip(batch, kept, i, rest, codes);
    }
  }

  lemma ListsNone(batch: seq<ActionMessage>, kept: set<int>, codes: set<int>)
    ensures Lists(batch, kept, |batch|, [], codes)
  {
  }

  /** The numbers of the actions of a kind. */
  function CodesOf(kind: Kind): set<int> {
    match kind
    case MoveKind => {0, 1, 2, 3, 5}
    case BombKind => {4}
    case OtherKind => {}
  }

  lemma KindByCode(m: ActionMessage, kind: Kind)
    requires kind != OtherKind
    ensures KindOf(m) == kind <==> m.action in CodesOf(kind)
    ensures KindOf(m) == kind ==> Means(m.action, Act(m).action) && Act(m).id == m.id
  {
  }

  lemma KeptSetSingle(batch: seq<ActionMessage>, last: seq<int>, kind: Kind)
    requires Legal(batch, last) && kind != OtherKind
    ensures Single(batch, KeptSet(batch, last), CodesOf(kind))
  {
    var kept := KeptSet(batch, last);
    forall j, k | 0 <= j < k < |batch| && j in kept && k in kept && batch[j].id == batch[k].id
      ensures batch[j].action !in CodesOf(kind) || batch[k].action !in CodesOf(kind)
    {
      KindByCode(batch[j], kind);
      KindByCode(batch[k], kind);
      if KindOf(batch[j]) == kind == KindOf(batch[k]) {
        KeptOnce(batch, last, j, k);
      }
    }
  }

  lemma KeptStep(batch: seq<ActionMessage>, last: seq<int>, i: nat, kind: Kind)
    requires Legal(batch, last) && i < |batch| && kind != OtherKind
    ensures var kept, rest := KeptSet(batch, last), KeptOf(batch, last, i + 1, kind);
      if Stands(batch, kept, i, Act(batch[i]), CodesOf(kind))
      then KeptOf(batch, last, i, kind) == rest + [Act(batch[i])]
      else KeptOf(batch, last, i, kind) == rest && (i !in kept || batch[i].action !in CodesOf(kind))
  {
    KindByCode(batch[i], kind);
    var rest := KeptOf(batch, last, i + 1, kind);
    assert rest + [] == rest;
  }

  /** Every kept message, and nothing else, is in the list of its kind, for its player and with the action that
      its number stands for; the latest comes first. */
  lemma {:induction false} KeptLists(batch: seq<ActionMessage>, last: seq<int>, i: nat, kind: Kind)
    requires Legal(batch, last) && i <= |batch| && kind != OtherKind
    ensures Lists(batch, KeptSet(batch, last), i, KeptOf(batch, last, i, kind), CodesOf(kind))
    decreases |batch| - i
  {
    if i < |batch| {
      KeptLists(batch, last, i + 1, kind);
      KeptStep(batch, last, i, kind);
      KeptSetSingle(batch, last, kind);
      ListsNext(batch, KeptSet(batch, last), i, KeptOf(batch, last, i + 1, kind), KeptOf(batch, last, i, kind),
                Act(batch[i]), CodesOf(kind));
    } else {
      ListsNone(batch, KeptSet(batch, last), CodesOf(kind));
    }
  }

  /** The same, with the numbers written out. */
  lemma KeptListsByCode(batch: seq<ActionMessage>, last: seq<int>)
    requires Legal(batch, last)
    ensures Lists(batch, KeptSet(batch, last), 0, KeptOf(batch, last, 0, MoveKind), {0, 1, 2, 3, 5})
    ensures Lists(batch, KeptSet(batch, last), 0, KeptOf(batch, last, 0, BombKind), {4})
  {
    KeptLists(batch, last, 0, MoveKind);
    KeptLists(batch, last, 0, BombKind);
  }

  /** `get_player_actions`: the two lists it merges and the new last numbers, for any batch. */
  method GetPlayerActions(batch: array<ActionMessage>, last: array<int>)
    returns (moves: array<PlayerAction>, moveCount: nat, bombs: array<PlayerAction>, bombCount: nat)
    requires last.Length == PLAYER_NUM && LegalIds(batch[..])
    modifies last
    ensures moveCount <= PLAYER_NUM == moves.Length && bombCount <= PLAYER_NUM == bombs.Length
    ensures moves[..moveCount] == KeptOf(batch[..], old(last[..]), 0, MoveKind)
    ensures bombs[..bombCount] == KeptOf(batch[..], old(last[..]), 0, BombKind)
    ensures Lists(batch[..], KeptSet(batch[..], old(last[..])), 0, moves[..moveCount], {0, 1, 2, 3, 5})
    ensures Lists(batch[..], KeptSet(batch[..], old(last[..])), 0, bombs[..bombCount], {4})
    ensures forall p :: 0 <= p < PLAYER_NUM ==> LastAfter(batch[..], old(last[..]), 0, p, last[p])
  {
    ghost var b, l := batch[..], last[..];
    KeptListsByCode(b, l);
    moves := new PlayerAction[PLAYER_NUM](_ => PlayerAction(0, NoAction));
    bombs := new PlayerAction[PLAYER_NUM](_ => PlayerAction(0, NoAction));
    moveCount, bombCount := 0, 0;
    var alreadyMove := new bool[PLAYER_NUM](_ => false);
    var alreadyBomb := new bool[PLAYER_NUM](_ => false);
    CountTrueNone(alreadyMove[..]);
    CountTrueNone(alreadyBomb[..]);
    var i := batch.Length;
    while i > 0
      invariant 0 <= i <= batch.Length && batch[..] == b
      invariant moveCount <= PLAYER_NUM && bombCount <= PLAYER_NUM
      invariant Scanned(b, l, i, moves[..moveCount], bombs[..bombCount], alreadyMove[..], alreadyBomb[..], last[..])
    {
      if moveCount == PLAYER_NUM && bombCount == PLAYER_NUM {
        ScannedEnough(b, l, i, moves[..moveCount], bombs[..bombCount], alreadyMove[..], alreadyBomb[..], last[..]);
        return;
      }
      i := i - 1;
      moveCount, bombCount := ScanMessage(batch[i], b, l, i, last, moves, moveCount, bombs, bombCount,
                                          alreadyMove, alreadyBomb);
    }
  }

  // ---- what the selection means for one player ----------------------------------------------------

  /** At most one message of each kind is kept for a player. */
  lemma KeptOnce(batch: seq<ActionMessage>, last: seq<int>, j: int, k: int)
    requires Legal(batch, last) && 0 <= j < |batch| && 0 <= k < |batch|
    requires Kept(batch, last, j) && Kept(batch, last, k)
    requires batch[j].id == batch[k].id && KindOf(batch[j]) == KindOf(batch[k])
    ensures j == k
  {
  }

  /** Every entry is for a player with an eligible message from index i on, and no player has two. */
  ghost predicate OneEach(batch: seq<ActionMessage>, last: seq<int>, i: nat, kind: Kind, r: seq<PlayerAction>)
    requires Legal(batch, last)
  {
    && (forall x :: 0 <= x < |r| ==> HasKind(batch, last, i, r[x].id, kind))
    && (forall x, y :: 0 <= x < y < |r| ==> r[x].id != r[y].id)
  }

  /** The lists of kept actions name every player at most once. */
  lemma {:induction false} KeptListsDistinct(batch: seq<ActionMessage>, last: seq<int>, i: nat, kind: Kind)
    requires Legal(batch, last) && i <= |batch|
    ensures OneEach(batch, last, i, kind, KeptOf(batch, last, i, kind))
    decreases |batch| - i
  {
    if i < |batch| {
      KeptListsDistinct(batch, last, i + 1, kind);
      var rest, r := KeptOf(batch, last, i + 1, kind), KeptOf(batch, last, i, kind);
      assert OneEach(batch, last, i + 1, kind, rest);
      forall x | 0 <= x < |rest|
        ensures HasKind(batch, last, i, rest[x].id, kind) && HasKind(batch, last, i + 1, rest[x].id, kind)
      {
        HasKindEarlier(batch, last, i, rest[x].id, kind);
      }
    }
  }

  lemma HasKindEarlier(batch: seq<ActionMessage>, last: seq<int>, i: nat, p: int, kind: Kind)
    requires Legal(batch, last) && HasKind(batch, last, i + 1, p, kind)
    ensures HasKind(batch, last, i, p, kind)
  {
  }

  /** A first message exists as soon as one good message does, and it is kept. */
  lemma FirstIsKept(batch: seq<ActionMessage>, last: seq<int>, m: nat)
    requires Legal(batch, last) && m < |batch| && Good(batch, last, m)
    ensures exists k :: m <= k < |batch| && batch[k].id == batch[m].id && First(batch, last, k) && Kept(batch, last, k)
  {
    HasGood(batch, last, m, batch[m].id, m);
    var k :| m <= k < |batch| && batch[k].id == batch[m].id && First(batch, last, k);
    if HasKind(batch, last, k + 1, batch[k].id, KindOf(batch[k])) {
      EligibleHasFirst(batch, last, k + 1, batch[k].id, KindOf(batch[k]));
    }
    assert Kept(batch, last, k);
  }

  /** Last numbers stay inside the range of the window, batch after batch. */
  lemma LastStaysInRange(batch: seq<ActionMessage>, last: seq<int>, p: int, n: int)
    requires Legal(batch, last) && 0 <= p < PLAYER_NUM && 0 <= last[p] < LIMIT_LAST_NUM_MESSAGE_CLIENT
    requires forall k :: 0 <= k < |batch| ==> 0 <= batch[k].num
    requires LastAfter(batch, last, 0, p, n)
    ensures 0 <= n < 4095
  {
    if HasFirst(batch, last, 0, p) {
      var k :| 0 <= k < |batch| && batch[k].id == p && First(batch, last, k);
      WindowExact(last[p], batch[k].num, LIMIT_LAST_NUM_MESSAGE_CLIENT);
    }
  }

  /** Nothing but the first message is kept for a player exactly when no earlier message of the other kind
      lies in the window that the first one opens. */
  lemma OnlyFirstKeptIff(batch: seq<ActionMessage>, last: seq<int>, k: nat)
    requires Legal(batch, last) && k < |batch| && First(batch, last, k)
    ensures (forall j :: 0 <= j < |batch| && batch[j].id == batch[k].id ==> (Kept(batch, last, j) <==> j == k))
      <==> (forall j :: 0 <= j < k ==> !Follows(batch, j, k))
  {
    FirstIsKept(batch, last, k);
    var f :| k <= f < |batch| && batch[f].id == batch[k].id && First(batch, last, f) && Kept(batch, last, f);
    FirstIsUnique(batch, last, f, k);
    forall j | 0 <= j < |batch| && batch[j].id == batch[k].id && Eligible(batch, last, j) && j != k
      ensures j < k && Follows(batch, j, k)
    {
      if First(batch, last, j) {
        FirstIsUnique(batch, last, j, k);
      } else {
        var g :| j < g < |batch| && First(batch, last, g) && Follows(batch, j, g);
        FirstIsUnique(batch, last, g, k);
      }
    }
    if j :| 0 <= j < k && Follows(batch, j, k) {
      var m := LatestFollower(batch, last, j, k);
      assert Kept(batch, last, m);
    }
  }

  /** Of the messages that may be kept besides the first, the latest is. */
  lemma LatestFollower(batch: seq<ActionMessage>, last: seq<int>, j: nat, k: nat) returns (m: nat)
    requires Legal(batch, last) && j < k < |batch| && First(batch, last, k) && Follows(batch, j, k)
    ensures j <= m < k && batch[m].id == batch[k].id && Kept(batch, last, m)
    decreases k - j
  {
    m := j;
    assert Eligible(batch, last, j);
    if HasKind(batch, last, j + 1, batch[j].id, KindOf(batch[j])) {
      var n :| j + 1 <= n < |batch| && batch[n].id == batch[j].id && KindOf(batch[n]) == KindOf(batch[j])
        && Eligible(batch, last, n);
      if First(batch, last, n) {
        FirstIsUnique(batch, last, n, k);
      } else {
        var g :| n < g < |batch| && First(batch, last, g) && Follows(batch, n, g);
        FirstIsUnique(batch, last, g, k);
        m := LatestFollower(batch, last, n, k);
      }
    }
  }

  /** Oldest first: if no earlier move or bomb message of the player lies further ahead, inside the starting
      window, than its first message in the backward scan, that newest one alone is kept. Numbers the window
      can never take do not matter. */
  lemma OldestFirstKeepsNewestOnly(batch: seq<ActionMessage>, last: seq<int>, k: nat)
    requires Legal(batch, last) && k < |batch| && First(batch, last, k)
    requires 0 <= last[batch[k].id] < LIMIT_LAST_NUM_MESSAGE_CLIENT
    requires forall j :: 0 <= j < |batch| ==> 0 <= batch[j].num
    requires forall j :: 0 <= j < k && batch[j].id == batch[k].id && KindOf(batch[j]) != OtherKind ==>
      || batch[j].num >= LIMIT_LAST_NUM_MESSAGE_CLIENT
      || (InWindow(last[batch[k].id], batch[j])
          && Ahead(last[batch[k].id], batch[j].num, LIMIT_LAST_NUM_MESSAGE_CLIENT)
             <= Ahead(last[batch[k].id], batch[k].num, LIMIT_LAST_NUM_MESSAGE_CLIENT))
    ensures forall j :: 0 <= j < |batch| && batch[j].id == batch[k].id ==> (Kept(batch, last, j) <==> j == k)
    ensures LastAfter(batch, last, 0, batch[k].id, batch[k].num)
  {
    var l, L := last[batch[k].id], LIMIT_LAST_NUM_MESSAGE_CLIENT;
    WindowExact(l, batch[k].num, L);
    forall j | 0 <= j < k
      ensures !Follows(batch, j, k)
    {
      if batch[j].id == batch[k].id && KindOf(batch[j]) != OtherKind {
        if batch[j].num >= L {
          WindowExact(batch[k].num, batch[j].num, L);
        } else {
          OlderRefused(l, batch[k].num, batch[j].num, L);
        }
      }
    }
    OnlyFirstKeptIff(batch, last, k);
    forall f | 0 <= f < |batch| && batch[f].id == batch[k].id && First(batch, last, f)
      ensures f == k
    {
      FirstIsUnique(batch, last, f, k);
    }
  }

  /** A message beyond the starting window can be kept besides the first, once that one has moved the window. */
  lemma FarMessageKept()
    ensures var far, near := ActionMessage(SOLO, 0, 0, 3000, 4), ActionMessage(SOLO, 0, 0, 2000, 1);
      var last := [0, 0, 0, 0];
      && !InWindow(last[0], far)
      && Kept([far, near], last, 0) && Kept([far, near], last, 1)
  {
    var batch, last := [ActionMessage(SOLO, 0, 0, 3000, 4), ActionMessage(SOLO, 0, 0, 2000, 1)], [0, 0, 0, 0];
    assert First(batch, last, 1);
    assert Follows(batch, 0, 1);
  }
}
