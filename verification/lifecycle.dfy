/** The end of one game: four TCP threads, the once-per-second thread, the frequency thread and the
    receiving thread, as an interleaving of the steps they take under their locks
    (src/network_server.c). Waiting is modelled without spurious wakeups; a broadcast wakes only who
    already waits, so wakeups can be lost and nothing is said about progress. */
module Lifecycle {
  import opened Board
  import opened Rules
  import opened Blasts
  import opened Runs
  import opened Outcome
  import opened Wire

  datatype Tcp =
    | Polling        // waits for its player to be ready, or for the time-out
    | Counting       // about to count itself ready
    | WaitingReady   // waits for the others to be ready
    | Serving        // in the loop of handle_tcp_communication
    | Leaving        // out of the loop, about to count itself as left
    | TearingDown    // found itself the last one, about to ask for the winner
    | Announced(winner: int)
    | Gone

  datatype Second =
    | SecondIdle | SecondPassing | SecondChecking
    | FoundOver      // is_game_over was true; about to set the flag
    | FlagSet        // about to wait for the TCP threads
    | WaitingTcp
    | TcpClosed      // about to wait for the UDP threads
    | WaitingUdp
    | Removing
    | SecondDone

  // The frequency and the receiving thread: both look at the flag before each round.
  datatype Udp = UdpIdle | UdpChecking | UdpWorking | UdpStopping | UdpStopped

  // Where the threads are, and what they share apart from the game.
  datatype Control = Control(
    tcp: seq<Tcp>, closed: seq<bool>, ready: nat, left: nat, leftFreed: bool, finished: bool, removed: bool,
    second: Second, freq: Udp, recv: Udp, stopped: nat)

  datatype Life = Life(mode: GameMode, game: State, control: Control)

  datatype LifeStep =
    | PollTimesOut(i: int) | PollSucceeds(i: int) | CountsReady(i: int)
    | SeesClosedSocket(i: int) | SeesFlag(i: int) | LosesClient(i: int)
    | CountsLeft(i: int) | AsksWinner(i: int) | TearsDown(i: int)
    | BombsPass(now: int) | ChecksOver | SetsFlag | WaitsTcp | WaitsUdp | Removes
    | FreqChecks | FreqTicks(acts: seq<PlayerAction>, clock: seq<int>, now: int) | FreqStops
    | RecvChecks | RecvReceives | RecvStops

  predicate Shaped(c: Control) {
    |c.tcp| == PLAYER_NUM && |c.closed| == PLAYER_NUM
  }

  predicate Enabled(c: Control, e: LifeStep)
    requires Shaped(c)
  {
    match e
    case PollTimesOut(i) => 0 <= i < PLAYER_NUM && c.tcp[i].Polling?
    case PollSucceeds(i) => 0 <= i < PLAYER_NUM && c.tcp[i].Polling?
    case CountsReady(i) => 0 <= i < PLAYER_NUM && c.tcp[i].Counting?
    case SeesClosedSocket(i) => 0 <= i < PLAYER_NUM && c.tcp[i].Serving? && c.closed[i]
    case SeesFlag(i) => 0 <= i < PLAYER_NUM && c.tcp[i].Serving? && c.finished
    case LosesClient(i) => 0 <= i < PLAYER_NUM && c.tcp[i].Serving? && !c.closed[i]
    case CountsLeft(i) => 0 <= i < PLAYER_NUM && c.tcp[i].Leaving?
    case AsksWinner(i) => 0 <= i < PLAYER_NUM && c.tcp[i].TearingDown?
    case TearsDown(i) => 0 <= i < PLAYER_NUM && c.tcp[i].Announced?
    case BombsPass(_) => c.second.SecondPassing?
    case ChecksOver => c.second.SecondChecking?
    case SetsFlag => c.second.FoundOver?
    case WaitsTcp => c.second.FlagSet?
    case WaitsUdp => c.second.TcpClosed?
    case Removes => c.second.Removing?
    case FreqChecks => c.freq.UdpChecking?
    case FreqTicks(acts, clock, _) => c.freq.UdpWorking? && LegalActions(acts) && |clock| == |acts|
    case FreqStops => c.freq.UdpStopping?
    case RecvChecks => c.recv.UdpChecking?
    case RecvReceives => c.recv.UdpWorking?
    case RecvStops => c.recv.UdpStopping?
  }

  function Woken(pc: Tcp): Tcp {
    if pc.WaitingReady? then Serving else pc
  }

  /** A UDP thread stops; the second one to do so wakes the once-per-second thread if that waits for it. */
  function AfterStop(c: Control): Control {
    c.(stopped := c.stopped + 1,
       second := if c.stopped + 1 == 2 && c.second.WaitingUdp? then Removing else c.second)
  }

  /** Thread i is at `pc` now. */
  function Moved(c: Control, i: int, pc: Tcp): Control
    requires Shaped(c) && 0 <= i < PLAYER_NUM
  {
    c.(tcp := c.tcp[i := pc])
  }

  /** The last player ready starts the three UDP threads and wakes the others. */
  function Started(c: Control, i: int): Control
    requires Shaped(c) && 0 <= i < PLAYER_NUM
  {
    var w := [Woken(c.tcp[0]), Woken(c.tcp[1]), Woken(c.tcp[2]), Woken(c.tcp[3])];
    c.(ready := PLAYER_NUM, tcp := w[i := Serving], second := SecondPassing, freq := UdpChecking, recv := UdpChecking)
  }

  /** The control side of a step, given whether the game is over and who would be announced. */
  function Flow(c: Control, e: LifeStep, over: bool, answer: int): Control
    requires Shaped(c) && Enabled(c, e)
  {
    match e
    case PollTimesOut(i) => Moved(c, i, Counting).(closed := c.closed[i := true])
    case PollSucceeds(i) => Moved(c, i, Counting)
    case CountsReady(i) =>
      if c.ready + 1 == PLAYER_NUM then Started(c, i) else Moved(c, i, WaitingReady).(ready := c.ready + 1)
    case SeesClosedSocket(i) => Moved(c, i, Leaving)
    case SeesFlag(i) => Moved(c, i, Leaving)
    case LosesClient(i) => Moved(c, i, Leaving)
    case CountsLeft(i) =>
      if c.left == PLAYER_NUM - 1 then Moved(c, i, TearingDown) else Moved(c, i, Gone).(left := c.left + 1)
    case AsksWinner(i) => Moved(c, i, Announced(answer))
    case TearsDown(i) =>
      Moved(c, i, Gone).(leftFreed := true, second := if c.second.WaitingTcp? then TcpClosed else c.second)
    case BombsPass(_) => c.(second := SecondChecking)
    case ChecksOver => c.(second := if over then FoundOver else SecondPassing)
    case SetsFlag => c.(finished := true, second := FlagSet)
    case WaitsTcp => c.(second := WaitingTcp)
    case WaitsUdp => c.(second := WaitingUdp)
    case Removes => c.(removed := true, second := SecondDone)
    case FreqChecks => c.(freq := if c.finished then UdpStopping else UdpWorking)
    case FreqTicks(_, _, _) => c.(freq := UdpChecking)
    case FreqStops => AfterStop(c.(freq := UdpStopped))
    case RecvChecks => c.(recv := if c.finished then UdpStopping else UdpWorking)
    case RecvReceives => c.(recv := UdpChecking)
    case RecvStops => AfterStop(c.(recv := UdpStopped))
  }

  predicate LegalPlay(e: LifeStep) {
    && (e.PollTimesOut? || e.LosesClient? ==> 0 <= e.i < PLAYER_NUM)
    && (e.FreqTicks? ==> LegalActions(e.acts) && |e.clock| == |e.acts|)
  }

  /** The game side of a step. */
  ghost function Play(s: State, e: LifeStep): (r: State)
    requires Shape(s) && LegalPlay(e)
    ensures Shape(r)
  {
    match e
    case PollTimesOut(i) => Evict(s, i)
    case LosesClient(i) => Evict(s, i)
    case BombsPass(now) => BombPass(s, now, 0)
    case FreqTicks(acts, clock, now) => Tick(s, acts, clock, now)
    case _ => s
  }

  ghost function Do(t: Life, e: LifeStep): Life
    requires Shape(t.game) && Shaped(t.control) && Enabled(t.control, e)
  {
    Life(t.mode, Play(t.game, e),
         Flow(t.control, e, GameOver(t.mode, t.game.players), Answer(t.mode, t.game.players)))
  }

  predicate InitialControl(c: Control) {
    && Shaped(c)
    && (forall i :: 0 <= i < PLAYER_NUM ==> c.tcp[i].Polling? && !c.closed[i])
    && c.ready == 0 && c.left == 0 && c.stopped == 0 && !c.leftFreed && !c.finished && !c.removed
    && c.second.SecondIdle? && c.freq.UdpIdle? && c.recv.UdpIdle?
  }

  ghost predicate Initial(t: Life) {
    Inv(t.game) && InitialControl(t.control)
  }

  // ---- the control side --------------------------------------------------------------------

  function One(b: bool): nat {
    if b then 1 else 0
  }

  function CountGone(tcp: seq<Tcp>): nat
    requires |tcp| == PLAYER_NUM
  {
    One(tcp[0].Gone?) + One(tcp[1].Gone?) + One(tcp[2].Gone?) + One(tcp[3].Gone?)
  }

  function CountWaiting(tcp: seq<Tcp>): nat
    requires |tcp| == PLAYER_NUM
  {
    One(tcp[0].WaitingReady?) + One(tcp[1].WaitingReady?) + One(tcp[2].WaitingReady?) + One(tcp[3].WaitingReady?)
  }

  predicate BeforeStart(pc: Tcp) {
    pc.Polling? || pc.Counting? || pc.WaitingReady?
  }

  predicate HasLeft(pc: Tcp) {
    pc.Leaving? || pc.TearingDown? || pc.Announced? || pc.Gone?
  }

  predicate IsLast(pc: Tcp) {
    pc.TearingDown? || pc.Announced?
  }

  predicate SawOver(p: Second) {
    p.FoundOver? || p.FlagSet? || p.WaitingTcp? || p.TcpClosed? || p.WaitingUdp? || p.Removing? || p.SecondDone?
  }

  predicate PastTcp(p: Second) {
    p.TcpClosed? || p.WaitingUdp? || p.Removing? || p.SecondDone?
  }

  /** The ready counter counts who waits, and nobody serves before all four are ready. */
  predicate ReadyCounted(c: Control)
    requires Shaped(c)
  {
    && c.ready <= PLAYER_NUM
    && (c.ready < PLAYER_NUM ==> c.ready == CountWaiting(c.tcp))
    && (c.ready < PLAYER_NUM ==> c.second.SecondIdle? && c.freq.UdpIdle? && c.recv.UdpIdle?)
    && (forall i :: 0 <= i < PLAYER_NUM ==> (BeforeStart(c.tcp[i]) <==> c.ready < PLAYER_NUM))
  }

  /** The left counter counts who is gone, until the last thread frees it; only that thread tears down. */
  predicate LeftCounted(c: Control)
    requires Shaped(c)
  {
    && (if c.leftFreed then CountGone(c.tcp) == PLAYER_NUM else c.left == CountGone(c.tcp) < PLAYER_NUM)
    && (forall i :: 0 <= i < PLAYER_NUM && IsLast(c.tcp[i]) ==> c.left == PLAYER_NUM - 1)
    && (PastTcp(c.second) ==> c.leftFreed)
  }

  /** The once-per-second thread removes the game only after both UDP threads have stopped. */
  predicate StopsCounted(c: Control) {
    && c.stopped == One(c.freq.UdpStopped?) + One(c.recv.UdpStopped?)
    && (c.second.Removing? || c.second.SecondDone? ==> c.stopped == 2)
    && (c.removed <==> c.second.SecondDone?)
  }

  predicate ControlInv(c: Control) {
    Shaped(c) && ReadyCounted(c) && LeftCounted(c) && StopsCounted(c)
  }

  lemma MovedCounts(c: Control, i: int, pc: Tcp)
    requires Shaped(c) && 0 <= i < PLAYER_NUM
    ensures CountGone(Moved(c, i, pc).tcp) == CountGone(c.tcp) - One(c.tcp[i].Gone?) + One(pc.Gone?)
    ensures CountWaiting(Moved(c, i, pc).tcp) == CountWaiting(c.tcp) - One(c.tcp[i].WaitingReady?) + One(pc.WaitingReady?)
  {
  }

  /** A thread step that stays on one side of the start. */
  lemma MovedKeepsReady(c: Control, i: int, pc: Tcp)
    requires Shaped(c) && ReadyCounted(c) && 0 <= i < PLAYER_NUM
    requires BeforeStart(pc) <==> BeforeStart(c.tcp[i])
    requires !pc.WaitingReady? && !c.tcp[i].WaitingReady?
    ensures ReadyCounted(Moved(c, i, pc))
  {
    MovedCounts(c, i, pc);
  }

  lemma CountedKeepsReady(c: Control, i: int)
    requires Shaped(c) && ReadyCounted(c) && 0 <= i < PLAYER_NUM && c.tcp[i].Counting?
    ensures c.ready < PLAYER_NUM
    ensures ReadyCounted(if c.ready + 1 == PLAYER_NUM then Started(c, i)
                         else Moved(c, i, WaitingReady).(ready := c.ready + 1))
  {
    MovedCounts(c, i, WaitingReady);
  }

  lemma FlowKeepsReady(c: Control, e: LifeStep, over: bool, answer: int)
    requires ControlInv(c) && Enabled(c, e)
    ensures ReadyCounted(Flow(c, e, over, answer))
  {
    match e
    case PollTimesOut(i) => MovedKeepsReady(c, i, Counting);
    case PollSucceeds(i) => MovedKeepsReady(c, i, Counting);
    case CountsReady(i) => CountedKeepsReady(c, i);
    case SeesClosedSocket(i) => MovedKeepsReady(c, i, Leaving);
    case SeesFlag(i) => MovedKeepsReady(c, i, Leaving);
    case LosesClient(i) => MovedKeepsReady(c, i, Leaving);
    case CountsLeft(i) => MovedKeepsReady(c, i, TearingDown); MovedKeepsReady(c, i, Gone);
    case AsksWinner(i) => MovedKeepsReady(c, i, Announced(answer));
    case TearsDown(i) => MovedKeepsReady(c, i, Gone);
    case _ =>
  }

  lemma FlowKeepsLeft(c: Control, e: LifeStep, over: bool, answer: int)
    requires ControlInv(c) && Enabled(c, e)
    ensures LeftCounted(Flow(c, e, over, answer))
  {
    match e
    case CountsReady(i) => StartKeepsLeft(c, i);
    case CountsLeft(i) => LeavingKeepsLeft(c, i);
    case TearsDown(i) => MovedCounts(c, i, Gone);
    case PollTimesOut(i) => MovedKeepsLeft(c, i, Counting);
    case PollSucceeds(i) => MovedKeepsLeft(c, i, Counting);
    case SeesClosedSocket(i) => MovedKeepsLeft(c, i, Leaving);
    case SeesFlag(i) => MovedKeepsLeft(c, i, Leaving);
    case LosesClient(i) => MovedKeepsLeft(c, i, Leaving);
    case AsksWinner(i) => MovedKeepsLeft(c, i, Announced(answer));
    case _ =>
  }

  /** A thread step that neither ends the thread nor makes it the last one. */
  lemma MovedKeepsLeft(c: Control, i: int, pc: Tcp)
    requires Shaped(c) && LeftCounted(c) && 0 <= i < PLAYER_NUM
    requires !pc.Gone? && !c.tcp[i].Gone? && (IsLast(pc) ==> IsLast(c.tcp[i]))
    ensures LeftCounted(Moved(c, i, pc))
  {
    MovedCounts(c, i, pc);
  }

  lemma StartKeepsLeft(c: Control, i: int)
    requires ControlInv(c) && 0 <= i < PLAYER_NUM && c.tcp[i].Counting?
    ensures LeftCounted(if c.ready + 1 == PLAYER_NUM then Started(c, i)
                        else Moved(c, i, WaitingReady).(ready := c.ready + 1))
  {
    MovedCounts(c, i, WaitingReady);
  }

  lemma LeavingKeepsLeft(c: Control, i: int)
    requires ControlInv(c) && 0 <= i < PLAYER_NUM && c.tcp[i].Leaving?
    ensures !c.leftFreed
    ensures LeftCounted(if c.left == PLAYER_NUM - 1 then Moved(c, i, TearingDown)
                        else Moved(c, i, Gone).(left := c.left + 1))
  {
    MovedCounts(c, i, TearingDown);
    MovedCounts(c, i, Gone);
  }

  lemma StopKeepsStops(c: Control)
    requires ControlInv(c)
    ensures c.freq.UdpStopping? ==> StopsCounted(AfterStop(c.(freq := UdpStopped)))
    ensures c.recv.UdpStopping? ==> StopsCounted(AfterStop(c.(recv := UdpStopped)))
  {
  }

  lemma FlowKeepsStops(c: Control, e: LifeStep, over: bool, answer: int)
    requires ControlInv(c) && Enabled(c, e)
    ensures StopsCounted(Flow(c, e, over, answer))
  {
    match e
    case FreqStops => StopKeepsStops(c);
    case RecvStops => StopKeepsStops(c);
    case CountsReady(i) => StartKeepsStops(c, i);
    case _ => OtherKeepsStops(c, e, over, answer);
  }

  lemma OtherKeepsStops(c: Control, e: LifeStep, over: bool, answer: int)
    requires Shaped(c) && StopsCounted(c) && Enabled(c, e) && !e.FreqStops? && !e.RecvStops? && !e.CountsReady?
    ensures StopsCounted(Flow(c, e, over, answer))
  {
  }

  lemma StartKeepsStops(c: Control, i: int)
    requires ControlInv(c) && 0 <= i < PLAYER_NUM && c.tcp[i].Counting?
    ensures StopsCounted(if c.ready + 1 == PLAYER_NUM then Started(c, i)
                         else Moved(c, i, WaitingReady).(ready := c.ready + 1))
  {
    assert c.ready < PLAYER_NUM;
  }

  // ---- the game under the threads ------------------------------------------------------------

  /** A player whose socket was closed is dead; a thread has left because its player is dead or on the flag. */
  ghost predicate LeftForAReason(c: Control, players: seq<Player>)
    requires Shaped(c) && |players| == PLAYER_NUM
  {
    forall i :: 0 <= i < PLAYER_NUM ==>
      && (c.closed[i] ==> players[i].dead)
      && (HasLeft(c.tcp[i]) ==> players[i].dead || c.finished)
  }

  ghost predicate LifeInv(t: Life) {
    && ControlInv(t.control) && Inv(t.game)
    && (t.control.finished || SawOver(t.control.second) ==> GameOver(t.mode, t.game.players))
    && LeftForAReason(t.control, t.game.players)
  }

  lemma InitialControlInv(c: Control)
    requires InitialControl(c)
    ensures ControlInv(c)
  {
  }

  lemma InitialInv(t: Life)
    requires Initial(t)
    ensures LifeInv(t)
  {
    InitialControlInv(t.control);
  }

  /** A step that changes the game keeps its invariant, and nobody revives. */
  lemma PlayKeepsInv(s: State, e: LifeStep)
    requires Inv(s) && LegalPlay(e)
    ensures Inv(Play(s, e)) && OneWay(s, Play(s, e))
  {
    if e.PollTimesOut? || e.LosesClient? {
      EvictKeepsInv(s, e.i);
      EvictOneWay(s, e.i);
    } else if e.BombsPass? {
      PassKeepsInv(s, e.now, 0);
    } else if e.FreqTicks? {
      TickChanges(s, e.acts, e.clock, e.now);
    }
  }

  lemma MovedKeepsReasons(c: Control, i: int, pc: Tcp, before: seq<Player>, after: seq<Player>)
    requires Shaped(c) && |before| == |after| == PLAYER_NUM && LeftForAReason(c, before) && 0 <= i < PLAYER_NUM
    requires forall j :: 0 <= j < PLAYER_NUM && before[j].dead ==> after[j].dead
    requires HasLeft(pc) ==> HasLeft(c.tcp[i]) || c.finished || after[i].dead
    ensures LeftForAReason(Moved(c, i, pc), after)
  {
  }

  lemma FlowKeepsReasons(c: Control, e: LifeStep, over: bool, answer: int, before: seq<Player>, after: seq<Player>)
    requires ControlInv(c) && Enabled(c, e) && |before| == |after| == PLAYER_NUM && LeftForAReason(c, before)
    requires forall i :: 0 <= i < PLAYER_NUM && before[i].dead ==> after[i].dead
    requires e.PollTimesOut? || e.LosesClient? ==> after[e.i].dead
    ensures LeftForAReason(Flow(c, e, over, answer), after)
  {
    match e
    case PollTimesOut(i) => MovedKeepsReasons(c, i, Counting, before, after);
    case PollSucceeds(i) => MovedKeepsReasons(c, i, Counting, before, after);
    case CountsReady(i) => MovedKeepsReasons(c, i, WaitingReady, before, after);
    case SeesClosedSocket(i) => MovedKeepsReasons(c, i, Leaving, before, after);
    case SeesFlag(i) => MovedKeepsReasons(c, i, Leaving, before, after);
    case LosesClient(i) => MovedKeepsReasons(c, i, Leaving, before, after);
    case CountsLeft(i) =>
      MovedKeepsReasons(c, i, TearingDown, before, after);
      MovedKeepsReasons(c, i, Gone, before, after);
    case AsksWinner(i) => MovedKeepsReasons(c, i, Announced(answer), before, after);
    case TearsDown(i) => MovedKeepsReasons(c, i, Gone, before, after);
    case _ =>
  }

  /** Only the check of the once-per-second thread can find the game over. */
  lemma FlowSawOver(c: Control, e: LifeStep, over: bool, answer: int)
    requires ControlInv(c) && Enabled(c, e)
    ensures var d := Flow(c, e, over, answer);
      d.finished || SawOver(d.second) ==> c.finished || SawOver(c.second) || (over && e.ChecksOver?)
  {
  }

  lemma FlowKeepsControlInv(c: Control, e: LifeStep, over: bool, answer: int)
    requires ControlInv(c) && Enabled(c, e)
    ensures ControlInv(Flow(c, e, over, answer))
  {
    FlowKeepsReady(c, e, over, answer);
    FlowKeepsLeft(c, e, over, answer);
    FlowKeepsStops(c, e, over, answer);
  }

  /** Every step of every thread keeps the invariant. */
  lemma StepKeepsLifeInv(t: Life, e: LifeStep)
    requires LifeInv(t) && Enabled(t.control, e)
    ensures LifeInv(Do(t, e))
  {
    var over, answer := GameOver(t.mode, t.game.players), Answer(t.mode, t.game.players);
    PlayKeepsInv(t.game, e);
    FlowKeepsControlInv(t.control, e, over, answer);
    FlowSawOver(t.control, e, over, answer);
    FlowKeepsReasons(t.control, e, over, answer, t.game.players, Play(t.game, e).players);
    if over {
      GameOverStays(t.mode, t.game, Play(t.game, e));
    }
  }

  // ---- every interleaving -----------------------------------------------------------------------

  ghost predicate Takes(t: Life, e: LifeStep, r: Life) {
    Shape(t.game) && Shaped(t.control) && Enabled(t.control, e) && r == Do(t, e)
  }

  /** A run of a game from its start: any enabled step of any thread may come next. */
  ghost predicate Behaviour(trace: seq<Life>, steps: seq<LifeStep>) {
    && |trace| == |steps| + 1 && Initial(trace[0])
    && forall k {:trigger steps[k]} :: 0 <= k < |steps| ==> Takes(trace[k], steps[k], trace[k + 1])
  }

  lemma {:induction false} BehaviourInv(trace: seq<Life>, steps: seq<LifeStep>, n: nat)
    requires Behaviour(trace, steps) && n < |trace|
    ensures LifeInv(trace[n])
    decreases n
  {
    if n == 0 {
      InitialInv(trace[0]);
    } else {
      BehaviourInv(trace, steps, n - 1);
      var e := steps[n - 1];
      StepKeepsLifeInv(trace[n - 1], e);
    }
  }

  /** The message `handle_game_over` sends for a winner: the other field is 0. */
  function EndOf(mode: GameMode, winner: int): EndMessage {
    if mode.SOLO? then EndMessage(SOLO, winner, 0) else EndMessage(TEAM, 0, winner)
  }

  /** Whether clients are told: always in team mode, in solo mode exactly when somebody has survived. What
      they decode is a message of this mode that names the winner. */
  ghost predicate Told(mode: GameMode, players: seq<Player>, winner: int)
    requires |players| == PLAYER_NUM
  {
    var sent := EncodeEnd(EndOf(mode, winner));
    && (sent.Some? <==> mode.TEAM? || exists i :: 0 <= i < PLAYER_NUM && !players[i].dead)
    && (sent.Some? ==>
      var read := DecodeEnd(sent.value);
      && read.Some? && read.value.mode == mode
      && if mode.SOLO? then read.value.id == winner && SoloWinner(players, read.value.id)
         else read.value.eq == winner && TeamWinner(players, read.value.eq))
  }

  lemma EndArrives(e: EndMessage)
    requires 0 <= e.id < 4 && 0 <= e.eq < 2
    ensures EncodeEnd(e).Some? && DecodeEnd(EncodeEnd(e).value) == Some(e)
  {
    EndRoundTrip(e);
    SmallHeaderFields(e.id, e.eq);
  }

  lemma SmallHeaderFields(id: int, eq: int)
    requires 0 <= id < 4 && 0 <= eq < 2
    ensures id % 4 == id && eq % 2 == eq
  {
  }

  lemma WinnerIsTold(mode: GameMode, players: seq<Player>)
    requires |players| == PLAYER_NUM && GameOver(mode, players)
    ensures Told(mode, players, Answer(mode, players))
  {
    AnswersAreWinners(players);
    var winner := Answer(mode, players);
    if mode.TEAM? {
      EndArrives(EndOf(TEAM, winner));
    } else {
      assert forall i :: 0 <= i < PLAYER_NUM ==> (i == winner <==> !players[i].dead);
      if winner >= 0 {
        EndArrives(EndOf(SOLO, winner));
      }
    }
  }

  /** What must hold where thread i, the last one, asks for the winner: the game is over and not yet removed,
      the counter it is about to free is still there, the other TCP threads are gone, what it then announces is
      the winner, and that is what the clients read, if there is anything to be sent. */
  ghost predicate SafeTeardown(r: Life, i: int)
    requires 0 <= i < PLAYER_NUM
  {
    && Shape(r.game) && Shaped(r.control) && r.control.tcp[i].TearingDown?
    && GameOver(r.mode, r.game.players) && !r.control.removed && !r.control.leftFreed
    && (forall j :: 0 <= j < PLAYER_NUM && j != i ==> r.control.tcp[j].Gone?)
    && var next := Do(r, AsksWinner(i));
      && next.game == r.game && |next.control.tcp| == PLAYER_NUM && next.control.tcp[i].Announced?
      && var winner := next.control.tcp[i].winner;
      && (if r.mode.SOLO? then SoloWinner(r.game.players, winner) else TeamWinner(r.game.players, winner))
      && Told(r.mode, r.game.players, winner)
  }

  /** The others are gone, so whoever has not left on the flag is dead. */
  lemma LastOneSeesGameOver(r: Life, i: int)
    requires LifeInv(r) && 0 <= i < PLAYER_NUM && r.control.tcp[i].TearingDown?
    ensures SafeTeardown(r, i)
  {
    var c := r.control;
    assert IsLast(c.tcp[i]);
    OthersGone(c, i);
    assert forall j :: 0 <= j < PLAYER_NUM ==> HasLeft(c.tcp[j]);
    if !c.finished {
      AllDeadIsOver(r.mode, r.game.players);
    }
    AnswersAreWinners(r.game.players);
    WinnerIsTold(r.mode, r.game.players);
  }

  lemma OthersGone(c: Control, i: int)
    requires ControlInv(c) && 0 <= i < PLAYER_NUM && IsLast(c.tcp[i])
    ensures !c.leftFreed && !c.removed
    ensures forall j :: 0 <= j < PLAYER_NUM && j != i ==> c.tcp[j].Gone?
  {
  }

  /** The teardown of the last TCP thread is safe in every interleaving. */
  lemma TeardownIsSafe(trace: seq<Life>, steps: seq<LifeStep>, n: nat, i: int)
    requires Behaviour(trace, steps) && n < |trace| && 0 <= i < PLAYER_NUM
    requires Shaped(trace[n].control) && trace[n].control.tcp[i].TearingDown?
    ensures SafeTeardown(trace[n], i)
  {
    BehaviourInv(trace, steps, n);
    LastOneSeesGameOver(trace[n], i);
  }

  lemma RemovedControlIsQuiet(c: Control, e: LifeStep)
    requires ControlInv(c) && c.removed
    ensures !Enabled(c, e)
  {
    assert forall i :: 0 <= i < PLAYER_NUM ==> c.tcp[i].Gone?;
  }

  /** Once the game is removed no thread can take another step: none is left to look at it. */
  lemma RemovedIsQuiet(trace: seq<Life>, steps: seq<LifeStep>, n: nat, e: LifeStep)
    requires Behaviour(trace, steps) && n < |trace| && Shaped(trace[n].control) && trace[n].control.removed
    ensures !Enabled(trace[n].control, e)
  {
    BehaviourInv(trace, steps, n);
    RemovedControlIsQuiet(trace[n].control, e);
  }

  /** The counters are never used after they have been freed. */
  lemma CountersAlive(trace: seq<Life>, steps: seq<LifeStep>, n: nat, i: int)
    requires Behaviour(trace, steps) && n < |trace| && Shaped(trace[n].control) && 0 <= i < PLAYER_NUM
    ensures var c := trace[n].control;
      && (c.tcp[i].Counting? ==> c.ready < PLAYER_NUM)
      && (c.tcp[i].Leaving? || IsLast(c.tcp[i]) ==> !c.leftFreed)
  {
    BehaviourInv(trace, steps, n);
  }

  // ---- what each thread finds ------------------------------------------------------------------------

  /** The once-per-second thread notices the end: after its check it can set the flag exactly when the game is
      over, and goes on with its next pass exactly when it is not. */
  lemma EndIsNoticed(trace: seq<Life>, steps: seq<LifeStep>, n: nat, now: int)
    requires Behaviour(trace, steps) && n < |trace| && Shaped(trace[n].control) && trace[n].control.second.SecondChecking?
    ensures Shape(trace[n].game) && Enabled(trace[n].control, ChecksOver)
    ensures var t := trace[n]; var r := Do(t, ChecksOver); var over := GameOver(t.mode, t.game.players);
      && r.game == t.game
      && (Enabled(r.control, SetsFlag) <==> over) && (Enabled(r.control, BombsPass(now)) <==> !over)
      && (over ==> Do(r, SetsFlag).control.finished && Do(r, SetsFlag).game == t.game)
  {
    BehaviourInv(trace, steps, n);
    CheckNotices(trace[n], now);
  }

  lemma CheckNotices(t: Life, now: int)
    requires Shape(t.game) && Shaped(t.control) && t.control.second.SecondChecking?
    ensures var r := Do(t, ChecksOver); var over := GameOver(t.mode, t.game.players);
      && r.game == t.game
      && (Enabled(r.control, SetsFlag) <==> over) && (Enabled(r.control, BombsPass(now)) <==> !over)
      && (over ==> Do(r, SetsFlag).control.finished && Do(r, SetsFlag).game == t.game)
  {
  }

  /** Both UDP threads look at the flag before each round: they stop exactly when it is set. */
  lemma FlagStopsUdp(c: Control, over: bool, answer: int, acts: seq<PlayerAction>, clock: seq<int>, now: int)
    requires Shaped(c) && LegalActions(acts) && |clock| == |acts|
    ensures c.freq.UdpChecking? ==>
      var d := Flow(c, FreqChecks, over, answer);
      (Enabled(d, FreqStops) <==> c.finished) && (Enabled(d, FreqTicks(acts, clock, now)) <==> !c.finished)
    ensures c.recv.UdpChecking? ==>
      var d := Flow(c, RecvChecks, over, answer);
      (Enabled(d, RecvStops) <==> c.finished) && (Enabled(d, RecvReceives) <==> !c.finished)
  {
  }

  /** Once a UDP thread has done its round, it checks again; once a bomb pass is done, so does its thread. */
  lemma RoundsEnd(c: Control, over: bool, answer: int, acts: seq<PlayerAction>, clock: seq<int>, now: int)
    requires Shaped(c) && LegalActions(acts) && |clock| == |acts|
    ensures c.freq.UdpWorking? ==> Enabled(Flow(c, FreqTicks(acts, clock, now), over, answer), FreqChecks)
    ensures c.recv.UdpWorking? ==> Enabled(Flow(c, RecvReceives, over, answer), RecvChecks)
    ensures c.second.SecondPassing? ==> Enabled(Flow(c, BombsPass(now), over, answer), ChecksOver)
  {
  }

  ghost predicate AllElse(c: Control, i: int, at: Tcp)
    requires Shaped(c)
  {
    forall j :: 0 <= j < PLAYER_NUM && j != i ==> c.tcp[j] == at
  }

  /** The last player to be ready starts everything; before that nothing runs. */
  lemma LastReadyStarts(c: Control, i: int, over: bool, answer: int, now: int)
    requires ControlInv(c) && 0 <= i < PLAYER_NUM && c.tcp[i].Counting?
    ensures var d := Flow(c, CountsReady(i), over, answer); var last := AllElse(c, i, WaitingReady);
      && |d.tcp| == PLAYER_NUM
      && (d.tcp[i].Serving? <==> last) && (Enabled(d, BombsPass(now)) <==> last)
      && (Enabled(d, FreqChecks) <==> last) && (Enabled(d, RecvChecks) <==> last)
      && (last ==> AllElse(d, i, Serving)) && (!last ==> d.tcp[i].WaitingReady?)
  {
  }

  lemma ThreeGone(tcp: seq<Tcp>, i: int)
    requires |tcp| == PLAYER_NUM && 0 <= i < PLAYER_NUM && !tcp[i].Gone?
    ensures CountGone(tcp) == PLAYER_NUM - 1 <==> forall j :: 0 <= j < PLAYER_NUM && j != i ==> tcp[j] == Gone
  {
    if CountGone(tcp) != PLAYER_NUM - 1 {
      assert exists j :: 0 <= j < PLAYER_NUM && j != i && tcp[j] != Gone;
    }
  }

  /** Whoever leaves last tears the game down, the others are just gone. */
  lemma LastLeaverTearsDown(c: Control, i: int, over: bool, answer: int)
    requires ControlInv(c) && 0 <= i < PLAYER_NUM && c.tcp[i].Leaving?
    ensures var d := Flow(c, CountsLeft(i), over, answer);
      && Shaped(d) && (Enabled(d, AsksWinner(i)) <==> AllElse(c, i, Gone)) && (d.tcp[i].Gone? <==> !AllElse(c, i, Gone))
  {
    LeavingKeepsLeft(c, i);
    ThreeGone(c.tcp, i);
    assert c.left == CountGone(c.tcp);
  }

  // ---- what each step does to the game -----------------------------------------------------------------

  ghost predicate EventsOf(e: LifeStep, events: seq<Event>)
    requires LegalPlay(e)
  {
    match e
    case PollTimesOut(i) => events == [Leaves(i)]
    case LosesClient(i) => events == [Leaves(i)]
    case BombsPass(now) => events == [BombsTick(now)]
    case FreqTicks(acts, clock, now) => TickEvents(acts, clock, now, events)
    case _ => events == []
  }

  /** Time-outs and lost clients disconnect their player, the once-per-second thread runs a bomb pass, the
      frequency thread a tick; no other step touches the game. */
  lemma StepsPlay(t: Life, e: LifeStep, events: seq<Event>)
    requires Shape(t.game) && Shaped(t.control) && Enabled(t.control, e)
    requires EventsOf(e, events)
    ensures forall x :: x in events ==> LegalEvent(x)
    ensures Do(t, e).game == Run(t.game, events)
  {
    match e
    case PollTimesOut(i) => RunOne(t.game, Leaves(i));
    case LosesClient(i) => RunOne(t.game, Leaves(i));
    case BombsPass(now) => RunOne(t.game, BombsTick(now));
    case FreqTicks(acts, clock, now) => TickIsRun(t.game, acts, clock, now, events);
    case _ =>
  }
}
