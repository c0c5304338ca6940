/** The table of running games (`add_game`, `remove_game`, `reset_games`, `init_model`): an array of slots that
    grows, with a count of the live ones, refining a partial map from ids to games. */
module GameTable {
  import opened Rules
  import opened Setup
  import opened Engine

  const GROWTH_FACTOR := 2
  const INITIAL_CAPACITY := 10

  /** The `game` structure: without a board until the set-up has made one. */
  class Entry {
    var game: Game?

    constructor ()
      ensures game == null
    {
      game := null;
    }
  }

  function CountLive(slots: seq<Entry?>): (n: nat)
    ensures n <= |slots|
  {
    if slots == [] then 0 else CountLive(slots[..|slots| - 1]) + if slots[|slots| - 1] == null then 0 else 1
  }

  lemma {:induction false} CountLiveUpdate(slots: seq<Entry?>, i: nat, e: Entry?)
    requires i < |slots|
    ensures CountLive(slots[i := e])
         == CountLive(slots) - (if slots[i] == null then 0 else 1) + if e == null then 0 else 1
  {
    var n := |slots| - 1;
    if i < n {
      assert slots[i := e][..n] == slots[..n][i := e];
      CountLiveUpdate(slots[..n], i, e);
    } else {
      assert slots[i := e][..n] == slots[..n];
    }
  }

  /** A table with fewer live games than slots has a free one. */
  lemma {:induction false} FreeSlotExists(slots: seq<Entry?>)
    requires CountLive(slots) < |slots|
    ensures exists i :: 0 <= i < |slots| && slots[i] == null
  {
    var n := |slots| - 1;
    if slots[n] != null {
      FreeSlotExists(slots[..n]);
      var i :| 0 <= i < n && slots[..n][i] == null;
      assert slots[i] == null;
    }
  }

  lemma {:induction false} CountLiveGrown(slots: seq<Entry?>, free: seq<Entry?>)
    requires forall k :: 0 <= k < |free| ==> free[k] == null
    ensures CountLive(slots + free) == CountLive(slots)
    decreases |free|
  {
    if free == [] {
      assert slots + free == slots;
    } else {
      var front := free[..|free| - 1];
      assert (slots + free)[..|slots + free| - 1] == slots + front;
      CountLiveGrown(slots, front);
    }
  }

  lemma {:induction false} CountLiveNone(slots: seq<Entry?>)
    requires forall k :: 0 <= k < |slots| ==> slots[k] == null
    ensures CountLive(slots) == 0
  {
    if slots != [] {
      CountLiveNone(slots[..|slots| - 1]);
    }
  }

  /** The partial map a table stands for. */
  ghost function Live(slots: seq<Entry?>): map<nat, Entry>
  {
    map i: nat | i < |slots| && slots[i] != null :: slots[i]
  }

  /** The live count is the size of the map. */
  lemma {:induction false} LiveSize(slots: seq<Entry?>)
    ensures |Live(slots)| == CountLive(slots)
  {
    if slots == [] {
      assert Live(slots) == map[];
    } else {
      var n := |slots| - 1;
      LiveSize(slots[..n]);
      var e := slots[n];
      if e == null {
        assert Live(slots) == Live(slots[..n]);
      } else {
        assert Live(slots) == Live(slots[..n])[n := e];
      }
    }
  }

  /** `get_game` tests an id against the live count. */
  function Lookup(slots: seq<Entry?>, id: nat): (e: Entry?)
  {
    if id >= CountLive(slots) then null else slots[id]
  }

  /** It finds every game exactly when the live games fill the first slots without a gap. */
  lemma LookupFindsAllIff(slots: seq<Entry?>)
    ensures (forall id: nat :: Lookup(slots, id) == if id in Live(slots) then Live(slots)[id] else null)
       <==> (forall i :: CountLive(slots) <= i < |slots| ==> slots[i] == null)
  {
    if forall id: nat :: Lookup(slots, id) == if id in Live(slots) then Live(slots)[id] else null {
      forall i | CountLive(slots) <= i < |slots|
        ensures slots[i] == null
      {
        assert Lookup(slots, i) == null;
      }
    }
  }

  // ---- the operations on values ------------------------------------------------------------

  /** Slots are there, and free, also while the array is not allocated: the capacity outlives a reset. */
  datatype TableValue = TableValue(present: bool, slots: seq<Entry?>)

  datatype TableOp = AddOp(e: Entry) | RemoveOp(id: nat) | ResetOp

  function FreeSlots(n: nat): (slots: seq<Entry?>)
    ensures |slots| == n && forall k :: 0 <= k < n ==> slots[k] == null
  {
    seq(n, _ => null)
  }

  ghost predicate Sound(t: TableValue) {
    1 <= |t.slots| && (!t.present ==> t.slots == FreeSlots(|t.slots|))
  }

  function FirstFree(slots: seq<Entry?>, i: nat): (id: nat)
    requires i <= |slots|
    ensures i <= id <= |slots| && (id < |slots| ==> slots[id] == null)
    ensures forall k :: i <= k < id ==> slots[k] != null
    decreases |slots| - i
  {
    if i == |slots| || slots[i] == null then i else FirstFree(slots, i + 1)
  }

  function Grown(slots: seq<Entry?>): (r: seq<Entry?>)
    requires 1 <= |slots|
    ensures CountLive(r) == CountLive(slots) < |r| && slots <= r
    ensures Live(r) == Live(slots)
  {
    CountLiveGrown(slots, FreeSlots(|slots|));
    if CountLive(slots) == |slots| then slots + FreeSlots(|slots|) else slots
  }

  /** The slot `add_game` fills: the one behind as many as are live if it is free, otherwise the first free one. */
  function NewId(slots: seq<Entry?>): (id: nat)
    requires CountLive(slots) < |slots|
    ensures id < |slots| && slots[id] == null
  {
    FreeSlotExists(slots);
    if slots[CountLive(slots)] == null then CountLive(slots) else FirstFree(slots, 0)
  }

  function Added(slots: seq<Entry?>, e: Entry): (r: seq<Entry?>)
    requires 1 <= |slots|
    ensures 1 <= |r|
  {
    Grown(slots)[NewId(Grown(slots)) := e]
  }

  function Apply(t: TableValue, op: TableOp): (r: TableValue)
    requires 1 <= |t.slots|
    ensures 1 <= |r.slots|
  {
    match op
    case AddOp(e) => TableValue(true, Added(t.slots, e))
    case RemoveOp(id) => if id < |t.slots| then t.(slots := t.slots[id := null]) else t
    case ResetOp => TableValue(false, FreeSlots(|t.slots|))
  }

  /** The operation reads a slot of an array that is not there. */
  predicate Fails(t: TableValue, op: TableOp) {
    !t.present && (op.ResetOp? || (op.RemoveOp? && op.id < |t.slots|))
  }

  /** Each operation on the slots is one on the map, and adding never meets a live game. */
  lemma ApplyRefines(t: TableValue, op: TableOp)
    requires Sound(t)
    ensures Sound(Apply(t, op)) || Fails(t, op)
    ensures var before, after := Live(t.slots), Live(Apply(t, op).slots);
      match op
      case AddOp(e) => NewId(Grown(t.slots)) !in before && after == before[NewId(Grown(t.slots)) := e]
      case RemoveOp(id) => after == before - {id}
      case ResetOp => after == map[]
  {
    match op
    case AddOp(e) => assert Live(Added(t.slots, e)) == Live(Grown(t.slots))[NewId(Grown(t.slots)) := e];
    case RemoveOp(id) =>
      if !t.present && id < |t.slots| {
        assert t.slots[id := null] == t.slots;
      }
    case ResetOp =>
  }

  // ---- whole runs ----------------------------------------------------------------------------

  function After(ops: seq<TableOp>): (t: TableValue)
    ensures 1 <= |t.slots|
  {
    if ops == [] then TableValue(false, FreeSlots(INITIAL_CAPACITY))
    else Apply(After(ops[..|ops| - 1]), ops[|ops| - 1])
  }

  /** Some add came before operation k, with no reset since. */
  ghost predicate AddedSince(ops: seq<TableOp>, k: int)
    requires 0 <= k <= |ops|
  {
    exists j :: 0 <= j < k && ops[j].AddOp? && forall m :: j < m < k ==> !ops[m].ResetOp?
  }

  lemma AddedSinceStep(ops: seq<TableOp>, k: nat)
    requires k < |ops|
    ensures AddedSince(ops, k + 1) <==> ops[k].AddOp? || (!ops[k].ResetOp? && AddedSince(ops, k))
  {
    if !ops[k].ResetOp? && AddedSince(ops, k) {
      var j :| 0 <= j < k && ops[j].AddOp? && forall m :: j < m < k ==> !ops[m].ResetOp?;
      assert forall m :: j < m < k + 1 ==> !ops[m].ResetOp?;
    }
  }

  lemma PresentStep(ops: seq<TableOp>, k: nat)
    requires k < |ops|
    ensures After(ops[..k + 1]).present <==> ops[k].AddOp? || (!ops[k].ResetOp? && After(ops[..k]).present)
  {
    assert ops[..k + 1] == ops[..k] + [ops[k]];
    AfterCons(ops[..k], ops[k]);
  }

  lemma {:induction false} AllocatedIff(ops: seq<TableOp>, k: nat)
    requires k <= |ops|
    ensures After(ops[..k]).present <==> AddedSince(ops, k)
  {
    if k > 0 {
      AllocatedIff(ops, k - 1);
      AddedSinceStep(ops, k - 1);
      PresentStep(ops, k - 1);
    }
  }

  /** Operation k looks at a slot: a reset, or the removal of an id below the capacity. */
  predicate Looks(ops: seq<TableOp>, k: int)
    requires 0 <= k < |ops|
  {
    ops[k].ResetOp? || (ops[k].RemoveOp? && ops[k].id < |After(ops[..k]).slots|)
  }

  /** No operation of a run fails exactly when each reset, and each removal of an id below the capacity,
      comes after an add with no reset in between. */
  lemma RunFailsNowhereIff(ops: seq<TableOp>)
    ensures NeverFails(ops)
       <==> (forall k :: 0 <= k < |ops| && Looks(ops, k) ==> AddedSince(ops, k))
  {
    forall k | 0 <= k < |ops|
      ensures Fails(After(ops[..k]), ops[k]) <==> Looks(ops, k) && !AddedSince(ops, k)
    {
      AllocatedIff(ops, k);
    }
  }

  /** A new table fails for the removal of any of its first ten ids and for a reset, and so it does after one. */
  lemma EarlyRemoveFails(id: nat, e: Entry)
    requires id < 10
    ensures Fails(After([]), RemoveOp(id)) && Fails(After([]), ResetOp)
    ensures Fails(After([AddOp(e), ResetOp]), RemoveOp(id)) && !Fails(After([AddOp(e)]), RemoveOp(id))
  {
    AfterCons([], AddOp(e));
    AfterCons([AddOp(e)], ResetOp);
    assert [AddOp(e)] + [ResetOp] == [AddOp(e), ResetOp];
  }

  predicate Clears(op: TableOp, id: nat) {
    op.ResetOp? || op == RemoveOp(id)
  }

  /** What operation k would be answered as an add. */
  function IdOf(ops: seq<TableOp>, k: nat): (id: nat)
    requires k <= |ops|
  {
    NewId(Grown(After(ops[..k]).slots))
  }

  /** The k-th operation added e and was answered the id; nothing has taken it away since. */
  ghost predicate StillHeld(ops: seq<TableOp>, k: int, id: nat, e: Entry)
    requires 0 <= k < |ops|
  {
    ops[k] == AddOp(e) && id == IdOf(ops, k) && forall m :: k < m < |ops| ==> !Clears(ops[m], id)
  }

  ghost predicate HeldBySome(ops: seq<TableOp>, id: nat, e: Entry) {
    exists k :: 0 <= k < |ops| && StillHeld(ops, k, id, e)
  }

  lemma IdOfPrefix(ops: seq<TableOp>, op: TableOp, k: nat)
    requires k <= |ops|
    ensures IdOf(ops + [op], k) == IdOf(ops, k)
  {
    assert (ops + [op])[..k] == ops[..k];
  }

  lemma StillHeldStep(ops: seq<TableOp>, op: TableOp, k: nat, id: nat, e: Entry)
    requires k < |ops|
    ensures StillHeld(ops + [op], k, id, e) <==> StillHeld(ops, k, id, e) && !Clears(op, id)
  {
    IdOfPrefix(ops, op, k);
    var all := ops + [op];
    assert all[|ops|] == op;
    assert forall m :: 0 <= m < |ops| ==> all[m] == ops[m];
  }

  lemma HeldStep(ops: seq<TableOp>, op: TableOp, id: nat, e: Entry)
    ensures HeldBySome(ops + [op], id, e)
      <==> (op == AddOp(e) && id == IdOf(ops, |ops|)) || (HeldBySome(ops, id, e) && !Clears(op, id))
  {
    var all := ops + [op];
    IdOfPrefix(ops, op, |ops|);
    forall k | 0 <= k < |ops|
      ensures StillHeld(all, k, id, e) <==> StillHeld(ops, k, id, e) && !Clears(op, id)
    {
      StillHeldStep(ops, op, k, id, e);
    }
    assert StillHeld(all, |ops|, id, e) <==> op == AddOp(e) && id == IdOf(ops, |ops|);
  }

  ghost predicate Holds(t: TableValue, id: nat, e: Entry) {
    id in Live(t.slots) && Live(t.slots)[id] == e
  }

  lemma HoldsStep(t: TableValue, op: TableOp, id: nat, e: Entry)
    requires Sound(t) && !Fails(t, op)
    ensures Holds(Apply(t, op), id, e)
      <==> (op == AddOp(e) && id == NewId(Grown(t.slots))) || (Holds(t, id, e) && !Clears(op, id))
  {
    ApplyRefines(t, op);
  }

  ghost predicate NeverFails(ops: seq<TableOp>) {
    forall k :: 0 <= k < |ops| ==> !Fails(After(ops[..k]), ops[k])
  }

  lemma NeverFailsFront(ops: seq<TableOp>, op: TableOp)
    requires NeverFails(ops + [op])
    ensures NeverFails(ops) && !Fails(After(ops), op)
  {
    var all := ops + [op];
    forall k | 0 <= k < |ops|
      ensures !Fails(After(ops[..k]), ops[k])
    {
      assert all[..k] == ops[..k] && all[k] == ops[k];
    }
    assert all[..|ops|] == ops && all[|ops|] == op;
  }

  /** After any run that does not fail, an id holds a game exactly when that add was answered this id and
      nothing has removed it since. */
  lemma {:induction false} HeldUntilRemoved(ops: seq<TableOp>, id: nat, e: Entry)
    requires NeverFails(ops)
    ensures Sound(After(ops))
    ensures Holds(After(ops), id, e) <==> HeldBySome(ops, id, e)
    decreases |ops|
  {
    if ops != [] {
      var front, op := ops[..|ops| - 1], ops[|ops| - 1];
      assert ops == front + [op];
      NeverFailsFront(front, op);
      HeldUntilRemoved(front, id, e);
      ApplyRefines(After(front), op);
      AfterCons(front, op);
      assert front[..|front|] == front;
      HoldsStep(After(front), op, id, e);
      HeldStep(front, op, id, e);
    }
  }

  /** While the slot behind as many as are live is free, that one is filled. */
  lemma AddedBehind(slots: seq<Entry?>, e: Entry)
    requires CountLive(slots) < |slots| && slots[CountLive(slots)] == null
    ensures Added(slots, e) == slots[CountLive(slots) := e]
    ensures CountLive(Added(slots, e)) == CountLive(slots) + 1
  {
    CountLiveUpdate(slots, CountLive(slots), e);
  }

  lemma OneLeft(free: seq<Entry?>, a: Entry, b: Entry)
    requires 2 <= |free| && forall k :: 0 <= k < |free| ==> free[k] == null
    ensures Added(Added(free, a), b) == free[0 := a][1 := b]
    ensures var slots := free[0 := a][1 := b][0 := null];
      CountLive(slots) == 1 && Live(slots) == map[1 := b]
  {
    CountLiveNone(free);
    AddedBehind(free, a);
    var one := free[0 := a];
    AddedBehind(one, b);
    var two := one[1 := b];
    CountLiveUpdate(two, 0, null);
  }

  lemma AfterThree(x: TableOp, y: TableOp, z: TableOp)
    ensures After([x, y, z]) == Apply(Apply(Apply(After([]), x), y), z)
  {
    AfterCons([], x);
    AfterCons([x], y);
    AfterCons([x, y], z);
    assert [x] + [y] == [x, y];
    assert [x, y] + [z] == [x, y, z];
  }

  /** After two adds to a new table and the removal of the first game, `get_game` no longer finds the second. */
  lemma LookupMissesSparse(a: Entry, b: Entry)
    ensures var slots := After([AddOp(a), AddOp(b), RemoveOp(0)]).slots;
      Live(slots) == map[1 := b] && Lookup(slots, 1) == null
  {
    AfterThree(AddOp(a), AddOp(b), RemoveOp(0));
    OneLeft(FreeSlots(INITIAL_CAPACITY), a, b);
  }

  lemma AfterCons(ops: seq<TableOp>, op: TableOp)
    ensures After(ops + [op]) == Apply(After(ops), op)
  {
    assert (ops + [op])[..|ops|] == ops;
  }

  class Table {
    var games: array?<Entry?>
    var size: nat
    var capacity: nat

    ghost predicate Valid()
      reads this, games
    {
      && 1 <= capacity
      && (if games == null then size == 0
          else games.Length == capacity && size == CountLive(games[..]))
    }

    ghost function View(): TableValue
      reads this, games
    {
      TableValue(games != null, if games == null then FreeSlots(capacity) else games[..])
    }

    constructor ()
      ensures Valid() && View() == After([])
    {
      games, size, capacity := null, 0, INITIAL_CAPACITY;
    }

    /** The first allocation: as many free slots as the capacity says. */
    method Allocate()
      requires Valid() && games == null
      modifies this`games
      ensures Valid() && games != null && fresh(games) && games[..] == old(View()).slots
    {
      games := new Entry?[capacity](_ => null);
      assert games[..] == FreeSlots(capacity);
      CountLiveNone(games[..]);
    }

    /** Double the slots, the new ones being free. */
    method Grow()
      requires Valid() && games != null && size == capacity
      modifies this
      ensures Valid() && games != null && fresh(games) && capacity == 2 * old(capacity)
      ensures games[..] == Grown(old(games[..])) && size == old(size)
    {
      ghost var before := games[..];
      var grown := new Entry?[capacity * GROWTH_FACTOR](_ => null);
      for i := 0 to capacity
        invariant unchanged(this) && grown[..i] == before[..i]
        invariant forall j :: i <= j < grown.Length ==> grown[j] == null
      {
        grown[i] := games[i];
      }
      assert grown[..] == before + FreeSlots(capacity);
      assert grown[..] == Grown(before);
      games := grown;
      capacity := capacity * GROWTH_FACTOR;
    }

    /** Fill slot i, which must be free. */
    method Fill(i: nat, e: Entry)
      requires Valid() && games != null && i < capacity && games[i] == null
      modifies this`size, games
      ensures Valid() && games == old(games) && games[..] == old(games[..])[i := e]
    {
      CountLiveUpdate(games[..], i, e);
      ghost var before := games[..];
      games[i] := e;
      size := size + 1;
      assert games[..] == before[i := e];
    }

    /** `add_game`: with memory available, a game is always stored, in a slot that was free. */
    method AddGame(e: Entry) returns (id: int)
      requires Valid()
      modifies this, games
      ensures Valid() && View() == Apply(old(View()), AddOp(e))
      ensures id == NewId(Grown(old(View()).slots)) && id !in Live(old(View()).slots)
      ensures games == old(games) || fresh(games)
    {
      ghost var before := View().slots;
      if games == null {
        Allocate();
      }
      if size == capacity {
        Grow();
      }
      ghost var slots := Grown(before);
      assert games[..] == slots;
      if games[size] == null {
        id := size;
        Fill(id, e);
        return;
      }
      for i := 0 to capacity
        invariant Valid() && games != null && games[..] == slots && games.Length == capacity
        invariant size == CountLive(slots) && slots[size] != null
        invariant games == old(games) || fresh(games)
        invariant forall j :: 0 <= j < i ==> slots[j] != null
      {
        if games[i] == null {
          assert FirstFree(slots, 0) == i;
          Fill(i, e);
          return i;
        }
      }
      FreeSlotExists(games[..]);
      assert false;
      id := -1;
    }

    /** `remove_game`: the id is free again, all other games stay. While the array is not allocated only ids
        beyond the capacity can be asked for. */
    method RemoveGame(id: nat)
      requires Valid() && !Fails(View(), RemoveOp(id))
      modifies this`size, games
      ensures Valid() && games == old(games) && View() == Apply(old(View()), RemoveOp(id))
    {
      if id >= capacity || games[id] == null {
        assert id < capacity ==> games[..] == games[..][id := null];
        return;
      }
      ghost var before := games[..];
      CountLiveUpdate(before, id, null);
      games[id] := null;
      size := size - 1;
      assert games[..] == before[id := null];
    }

    /** `reset_games`, which also looks at every slot. */
    method ResetGames()
      requires Valid() && !Fails(View(), ResetOp)
      modifies this, games
      ensures Valid() && View() == Apply(old(View()), ResetOp)
    {
      for i := 0 to capacity
        invariant Valid() && games == old(games) && capacity == old(capacity)
        invariant forall j :: 0 <= j < i ==> games[j] == null
      {
        RemoveGame(i);
      }
      CountLiveNone(games[..]);
      games := null;
    }

    /** `init_model`: the game is in the table before its size is looked at, so a refused one keeps its slot. */
    method InitModel(width: int, height: int, mode: GameMode, random: nat -> nat) returns (id: int, ghost e: Entry)
      requires Valid()
      modifies this, games
      ensures Valid() && fresh(e) && View() == Apply(old(View()), AddOp(e))
      ensures id == if width <= 10 || height <= 10 then -1 else NewId(Grown(old(View()).slots))
      ensures e.game == null <==> id == -1
      ensures e.game != null ==> fresh(e.game) && e.game.Valid() && Start(e.game.S(), random) && e.game.mode == mode
    {
      var entry := new Entry();
      id := AddGame(entry);
      entry.game := InitBoard(width, height, mode, random);
      if entry.game == null {
        id := -1;
      }
      e := entry;
    }
  }
}
