/** One behaviour of the threads from the start of a solo game to its removal: three players are lost, the
    survivor's thread leaves on the flag. */
module Ending {
  import opened Board
  import opened Rules
  import opened BombList
  import opened Blasts
  import opened Runs
  import opened Outcome
  import opened Setup
  import opened Lifecycle

  // ---- the game: no bombs, and players 0, 1 and 2 lost one after the other --------------------------

  /** A game without bombs whose players from 0 to n - 1 are dead, the others living. */
  ghost predicate Down(s: State, n: int) {
    Inv(s) && s.bombs == [] && forall i :: 0 <= i < PLAYER_NUM ==> (s.players[i].dead <==> i < n)
  }

  lemma NextDown(s: State, n: int)
    requires Down(s, n) && 0 <= n < 3
    ensures Down(Evict(s, n), n + 1)
  {
    EvictKeepsInv(s, n);
  }

  lemma NothingExplodes(s: State, n: int, now: int)
    requires Down(s, n)
    ensures BombPass(s, now, 0) == s && Tick(s, [], [], now) == s
  {
  }

  lemma OverWhenThreeDown(s: State, n: int)
    requires Down(s, n) && n <= 3
    ensures GameOver(SOLO, s.players) <==> n == 3
  {
    if n < 3 {
      assert !s.players[2].dead && !s.players[3].dead;
    }
  }

  lemma LastOneWins(s: State)
    requires Down(s, 3)
    ensures Answer(SOLO, s.players) == 3
  {
    AnswersAreWinners(s.players);
    OverWhenThreeDown(s, 3);
    assert SoloWinner(s.players, SoloAnswer(s.players, 0));
  }

  // ---- the steps ------------------------------------------------------------------------------------

  const LAST_STEP := 34

  function StepAt(k: nat): LifeStep {
    match k
    // nobody answers for player 0 in time; the others get ready
    case 0 => PollTimesOut(0) case 1 => PollSucceeds(1) case 2 => PollSucceeds(2) case 3 => PollSucceeds(3)
    case 4 => CountsReady(0) case 5 => CountsReady(1) case 6 => CountsReady(2) case 7 => CountsReady(3)
    // a round of each of the three other threads
    case 8 => BombsPass(0) case 9 => ChecksOver
    case 10 => FreqChecks case 11 => FreqTicks([], [], 0) case 12 => RecvChecks case 13 => RecvReceives
    // three players leave
    case 14 => SeesClosedSocket(0) case 15 => LosesClient(1) case 16 => LosesClient(2)
    case 17 => CountsLeft(0) case 18 => CountsLeft(1) case 19 => CountsLeft(2)
    // the end is noticed, and the last thread leaves on the flag
    case 20 => BombsPass(0) case 21 => ChecksOver case 22 => SetsFlag
    case 23 => SeesFlag(3) case 24 => WaitsTcp case 25 => CountsLeft(3) case 26 => AsksWinner(3) case 27 => TearsDown(3)
    // the other threads stop
    case 28 => WaitsUdp case 29 => FreqChecks case 30 => FreqStops case 31 => RecvChecks case 32 => RecvStops
    case _ => Removes
  }

  const Begin := Control([Polling, Polling, Polling, Polling], [false, false, false, false], 0, 0, false, false, false,
                         SecondIdle, UdpIdle, UdpIdle, 0)

  const Playing := Control([Serving, Serving, Serving, Serving], [true, false, false, false], 4, 0, false, false, false,
                           SecondPassing, UdpChecking, UdpChecking, 0)

  const OneServes := Playing.(tcp := [Gone, Gone, Gone, Serving], left := 3)

  const Flagged := OneServes.(finished := true, second := FlagSet)

  const Closed := Flagged.(tcp := [Gone, Gone, Gone, Gone], leftFreed := true, second := TcpClosed)

  /** Where the threads are before step k. */
  function ControlAt(k: nat): Control {
    if k <= 7 then ControlJoining(k)
    else if k <= 19 then ControlPlaying(k)
    else if k <= 27 then ControlLeaving(k)
    else ControlStopping(k)
  }

  function ControlJoining(k: nat): Control {
    var closed := [true, false, false, false];
    match k
    case 0 => Begin
    case 1 => Begin.(tcp := [Counting, Polling, Polling, Polling], closed := closed)
    case 2 => Begin.(tcp := [Counting, Counting, Polling, Polling], closed := closed)
    case 3 => Begin.(tcp := [Counting, Counting, Counting, Polling], closed := closed)
    case 4 => Begin.(tcp := [Counting, Counting, Counting, Counting], closed := closed)
    case 5 => Begin.(tcp := [WaitingReady, Counting, Counting, Counting], closed := closed, ready := 1)
    case 6 => Begin.(tcp := [WaitingReady, WaitingReady, Counting, Counting], closed := closed, ready := 2)
    case _ => Begin.(tcp := [WaitingReady, WaitingReady, WaitingReady, Counting], closed := closed, ready := 3)
  }

  function ControlPlaying(k: nat): Control {
    match k
    case 8 => Playing
    case 9 => Playing.(second := SecondChecking)
    case 10 => Playing
    case 11 => Playing.(freq := UdpWorking)
    case 12 => Playing
    case 13 => Playing.(recv := UdpWorking)
    case 14 => Playing
    case 15 => Playing.(tcp := [Leaving, Serving, Serving, Serving])
    case 16 => Playing.(tcp := [Leaving, Leaving, Serving, Serving])
    case 17 => Playing.(tcp := [Leaving, Leaving, Leaving, Serving])
    case 18 => Playing.(tcp := [Gone, Leaving, Leaving, Serving], left := 1)
    case _ => Playing.(tcp := [Gone, Gone, Leaving, Serving], left := 2)
  }

  function ControlLeaving(k: nat): Control {
    match k
    case 20 => OneServes
    case 21 => OneServes.(second := SecondChecking)
    case 22 => OneServes.(second := FoundOver)
    case 23 => Flagged
    case 24 => Flagged.(tcp := [Gone, Gone, Gone, Leaving])
    case 25 => Flagged.(tcp := [Gone, Gone, Gone, Leaving], second := WaitingTcp)
    case 26 => Flagged.(tcp := [Gone, Gone, Gone, TearingDown], second := WaitingTcp)
    case _ => Flagged.(tcp := [Gone, Gone, Gone, Announced(3)], second := WaitingTcp)
  }

  function ControlStopping(k: nat): Control {
    match k
    case 28 => Closed
    case 29 => Closed.(second := WaitingUdp)
    case 30 => Closed.(second := WaitingUdp, freq := UdpStopping)
    case 31 => Closed.(second := WaitingUdp, freq := UdpStopped, stopped := 1)
    case 32 => Closed.(second := WaitingUdp, freq := UdpStopped, recv := UdpStopping, stopped := 1)
    case 33 => Closed.(second := Removing, freq := UdpStopped, recv := UdpStopped, stopped := 2)
    case _ => Closed.(removed := true, second := SecondDone, freq := UdpStopped, recv := UdpStopped, stopped := 2)
  }

  /** The game before step k. */
  function GameAt(s: State, k: nat): (r: State)
    requires Shape(s)
    ensures Shape(r)
  {
    if k == 0 then s
    else if k <= 15 then Evict(s, 0)
    else if k == 16 then Evict(Evict(s, 0), 1)
    else Evict(Evict(Evict(s, 0), 1), 2)
  }

  function LifeAt(s: State, k: nat): Life
    requires Shape(s)
  {
    Life(SOLO, GameAt(s, k), ControlAt(k))
  }

  lemma DownAt(s: State, k: nat)
    requires Down(s, 0)
    ensures Down(GameAt(s, k), if k == 0 then 0 else if k <= 15 then 1 else if k == 16 then 2 else 3)
  {
    NextDown(s, 0);
    NextDown(Evict(s, 0), 1);
    NextDown(Evict(Evict(s, 0), 1), 2);
  }

  /** A step of the threads, given what it needs to know of the game. */
  lemma ControlStep(k: nat, over: bool, answer: int)
    requires k < LAST_STEP && over == (k > 16) && (k == 26 ==> answer == 3)
    ensures Shaped(ControlAt(k)) && Enabled(ControlAt(k), StepAt(k))
    ensures Flow(ControlAt(k), StepAt(k), over, answer) == ControlAt(k + 1)
  {
    if k < 8 {
      JoiningStep(k, over, answer);
    } else if k < 20 {
      PlayingStep(k, over, answer);
    } else if k < 28 {
      LeavingStep(k, over, answer);
    } else {
      StoppingStep(k, over, answer);
    }
  }

  lemma JoiningStep(k: nat, over: bool, answer: int)
    requires k < 8
    ensures Shaped(ControlAt(k)) && Enabled(ControlAt(k), StepAt(k))
    ensures Flow(ControlAt(k), StepAt(k), over, answer) == ControlAt(k + 1)
  {
  }

  lemma PlayingStep(k: nat, over: bool, answer: int)
    requires 8 <= k < 20 && over == (k > 16)
    ensures Shaped(ControlAt(k)) && Enabled(ControlAt(k), StepAt(k))
    ensures Flow(ControlAt(k), StepAt(k), over, answer) == ControlAt(k + 1)
  {
  }

  lemma LeavingStep(k: nat, over: bool, answer: int)
    requires 20 <= k < 28 && over && (k == 26 ==> answer == 3)
    ensures Shaped(ControlAt(k)) && Enabled(ControlAt(k), StepAt(k))
    ensures Flow(ControlAt(k), StepAt(k), over, answer) == ControlAt(k + 1)
  {
  }

  lemma StoppingStep(k: nat, over: bool, answer: int)
    requires 28 <= k < LAST_STEP
    ensures Shaped(ControlAt(k)) && Enabled(ControlAt(k), StepAt(k))
    ensures Flow(ControlAt(k), StepAt(k), over, answer) == ControlAt(k + 1)
  {
  }

  lemma QuietStep(k: nat)
    requires k < LAST_STEP && k !in {0, 8, 11, 15, 16, 20}
    ensures var e := StepAt(k); !e.PollTimesOut? && !e.LosesClient? && !e.BombsPass? && !e.FreqTicks?
  {
  }

  /** What the step does to the game. */
  lemma GameStep(s: State, k: nat)
    requires Down(s, 0) && k < LAST_STEP
    ensures LegalPlay(StepAt(k)) && Play(GameAt(s, k), StepAt(k)) == GameAt(s, k + 1)
  {
    DownAt(s, k);
    if k in {8, 11} {
      NothingExplodes(GameAt(s, k), 1, 0);
    } else if k == 20 {
      NothingExplodes(GameAt(s, k), 3, 0);
    } else if k !in {0, 15, 16} {
      QuietStep(k);
    }
  }

  lemma LifeStepTaken(s: State, k: nat)
    requires Down(s, 0) && k < LAST_STEP
    ensures Takes(LifeAt(s, k), StepAt(k), LifeAt(s, k + 1))
  {
    var g := GameAt(s, k);
    DownAt(s, k);
    OverWhenThreeDown(g, if k == 0 then 0 else if k <= 15 then 1 else if k == 16 then 2 else 3);
    if k > 16 {
      LastOneWins(g);
    }
    ControlStep(k, GameOver(SOLO, g.players), Answer(SOLO, g.players));
    GameStep(s, k);
  }

  lemma StartDown(s: State, random: nat -> nat)
    requires Start(s, random)
    ensures Down(s, 0)
  {
    StartInv(s, random);
  }

  /** States and steps given by number make a behaviour. */
  lemma TraceBehaves(at: nat -> Life, step: nat -> LifeStep, n: nat)
    requires Initial(at(0)) && forall k: nat :: k < n ==> Takes(at(k), step(k), at(k + 1))
    ensures Behaviour(seq(n + 1, k requires 0 <= k => at(k)), seq(n, k requires 0 <= k => step(k)))
  {
    var trace, steps := seq(n + 1, k requires 0 <= k => at(k)), seq(n, k requires 0 <= k => step(k));
    assert trace[0] == at(0);
    forall k: nat {:trigger steps[k]} | k < n
      ensures Takes(trace[k], steps[k], trace[k + 1])
    {
      assert trace[k] == at(k) && steps[k] == step(k) && trace[k + 1] == at(k + 1);
      assert Takes(at(k), step(k), at(k + 1));
    }
  }

  lemma EndingStarts(s: State)
    requires Down(s, 0)
    ensures Initial(LifeAt(s, 0)) && LifeAt(s, 0).game == s
  {
  }

  lemma EndingReached(s: State)
    requires Shape(s)
    ensures LifeAt(s, 34).control.removed && StepAt(23) == SeesFlag(3) && StepAt(26) == AsksWinner(3)
    ensures Shaped(LifeAt(s, 27).control) && LifeAt(s, 27).control.tcp[3] == Announced(3)
  {
  }

  lemma EndingBehaves(s: State, at: nat -> Life, step: nat -> LifeStep)
    requires Down(s, 0) && (forall k: nat :: at(k) == LifeAt(s, k)) && forall k: nat :: step(k) == StepAt(k)
    ensures Behaviour(seq(LAST_STEP + 1, k requires 0 <= k => at(k)), seq(LAST_STEP, k requires 0 <= k => step(k)))
  {
    forall k: nat | k < LAST_STEP
      ensures Takes(at(k), step(k), at(k + 1))
    {
      LifeStepTaken(s, k);
    }
    EndingStarts(s);
    TraceBehaves(at, step, LAST_STEP);
  }

  /** From every starting board there is a behaviour in which the game ends, a thread leaves on the flag, the
      survivor is announced and the game is removed. */
  lemma GameEnds(s: State, random: nat -> nat) returns (trace: seq<Life>, steps: seq<LifeStep>)
    requires Start(s, random)
    ensures Behaviour(trace, steps) && trace[0].game == s && |steps| == LAST_STEP
    ensures trace[LAST_STEP].control.removed
    ensures steps[23] == SeesFlag(3) && steps[26] == AsksWinner(3)
    ensures Shaped(trace[27].control) && trace[27].control.tcp[3] == Announced(3)
  {
    StartDown(s, random);
    var at: nat -> Life, step: nat -> LifeStep := (k: nat) => LifeAt(s, k), (k: nat) => StepAt(k);
    EndingBehaves(s, at, step);
    EndingStarts(s);
    EndingReached(s);
    trace, steps := seq(LAST_STEP + 1, k requires 0 <= k => at(k)), seq(LAST_STEP, k requires 0 <= k => step(k));
    assert trace[0] == at(0) && trace[27] == at(27) && trace[34] == at(34);
    assert steps[23] == step(23) && steps[26] == step(26);
  }
}
