/** When a game is over and who has won it (`is_game_over`, `get_winner_solo`, `get_winner_team`). */
module Outcome {
  import opened Board
  import opened Rules
  import opened Blasts

  /** Players 0 and 3 play against 1 and 2. */
  function TeamOf(i: int): int {
    if i == 0 || i == 3 then 0 else 1
  }

  ghost predicate TeamDead(players: seq<Player>, team: int)
    requires |players| == PLAYER_NUM
  {
    forall i :: 0 <= i < PLAYER_NUM && TeamOf(i) == team ==> players[i].dead
  }

  /** At most one player is left, or nobody in one of the teams. */
  ghost predicate GameOver(mode: GameMode, players: seq<Player>)
    requires |players| == PLAYER_NUM
  {
    if mode.SOLO? then
      forall i, j :: 0 <= i < j < PLAYER_NUM ==> players[i].dead || players[j].dead
    else TeamDead(players, 0) || TeamDead(players, 1)
  }

  /** What `get_winner_solo` answers once the game is over: the survivor, or -1 when there is none. */
  ghost predicate SoloWinner(players: seq<Player>, winner: int)
    requires |players| == PLAYER_NUM
  {
    && -1 <= winner < PLAYER_NUM
    && forall i :: 0 <= i < PLAYER_NUM ==> (i == winner <==> !players[i].dead)
  }

  /** What `get_winner_team` answers once the game is over: a team whose opponents are all dead. */
  ghost predicate TeamWinner(players: seq<Player>, winner: int)
    requires |players| == PLAYER_NUM
  {
    0 <= winner <= 1 && TeamDead(players, 1 - winner)
  }

  /** `get_winner_solo`: from player i on, the first living player that is not alone in being looked at. */
  function SoloAnswer(players: seq<Player>, i: nat): (winner: int)
    requires |players| == PLAYER_NUM && i <= PLAYER_NUM
    decreases PLAYER_NUM - i
  {
    if i == PLAYER_NUM then -1
    else if !players[i].dead && exists j :: 0 <= j < PLAYER_NUM && j != i && players[j].dead then i
    else SoloAnswer(players, i + 1)
  }

  /** What can be said of `get_winner_team` at any time: -1 exactly while both teams live, otherwise a winner,
      which is team 1 when nobody is left. */
  ghost predicate TeamAnswered(players: seq<Player>, winner: int)
    requires |players| == PLAYER_NUM
  {
    && (winner == -1 <==> !GameOver(TEAM, players))
    && (GameOver(TEAM, players) ==> TeamWinner(players, winner))
    && (winner == 0 ==> !TeamDead(players, 0))
  }

  /** That fixes the answer. */
  lemma TeamAnswerUnique(players: seq<Player>, a: int, b: int)
    requires |players| == PLAYER_NUM && TeamAnswered(players, a) && TeamAnswered(players, b)
    ensures a == b
  {
  }

  ghost function TeamAnswer(players: seq<Player>): (winner: int)
    requires |players| == PLAYER_NUM
    ensures TeamAnswered(players, winner)
  {
    if !GameOver(TEAM, players) then -1 else if TeamDead(players, 0) then 1 else 0
  }

  ghost function Answer(mode: GameMode, players: seq<Player>): int
    requires |players| == PLAYER_NUM
  {
    if mode.SOLO? then SoloAnswer(players, 0) else TeamAnswer(players)
  }

  /** Once the game is over the answers are the winners: the survivor or nobody, a team left by the other. */
  lemma AnswersAreWinners(players: seq<Player>)
    requires |players| == PLAYER_NUM
    ensures GameOver(SOLO, players) ==> SoloWinner(players, SoloAnswer(players, 0))
    ensures GameOver(TEAM, players) ==> TeamWinner(players, TeamAnswer(players))
  {
    assert SoloAnswer(players, 3) == if !players[3].dead && (players[0].dead || players[1].dead || players[2].dead) then 3 else -1;
    assert SoloAnswer(players, 2) == if !players[2].dead && (players[0].dead || players[1].dead || players[3].dead) then 2
                                     else SoloAnswer(players, 3);
    assert SoloAnswer(players, 1) == if !players[1].dead && (players[0].dead || players[2].dead || players[3].dead) then 1
                                     else SoloAnswer(players, 2);
  }

  lemma GameOverStays(mode: GameMode, s: State, r: State)
    requires OneWay(s, r) && GameOver(mode, s.players)
    ensures GameOver(mode, r.players)
  {
  }

  lemma AllDeadIsOver(mode: GameMode, players: seq<Player>)
    requires |players| == PLAYER_NUM && forall i :: 0 <= i < PLAYER_NUM ==> players[i].dead
    ensures GameOver(mode, players)
  {
  }
}
