# A verified model of the Bomberman server

This project models the rules engine, the tick pipeline, the wire format, the end of a game and the two
linked and indexed stores of C-Network-Bomberman, and proves what they keep over every run.
`dafny verify dfyconfig.toml` checks all of it.

## The system, and how it is modelled

* **The game** (`board`, `rules`, `bomb_list`, `blast`, `setup`, `outcome`, `game`). `Engine.Game` holds a flat
  grid, four players and a growable bomb array and updates them in place, as `src/model.c` does. Its methods are
  proved against functions on a value `Rules.State` (the board seen by cells). `Rules.Inv` is the one invariant
  that keeps the grid, the players' positions and the bomb records in agreement.
* **Runs and ticks** (`runs`, `changes`). A run is any sequence of moves, bomb drops (by dead players too), bomb
  passes and disconnections. A tick is a list of player actions followed by one bomb pass.
* **The mirror** (`diff`, `wire`, `layout`, `mirror`, `overflow`). Boards are compared, packed into bytes, unpacked and patched; client and
  server form one state machine with a set of cells that may be out of step.
* **The tick pipeline** (`window`, `quicksort`, `selection`, `tick`). The sequence-number window, the in-place
  quicksort, and the backward scan that picks at most one move and one bomb drop a player.
* **The end of a game** (`lifecycle`, `ending`). Seven threads as an interleaving of the steps they take under their
  locks, and one behaviour from the start of a game to its removal.
* **Stores** (`chat_ring`, `chat`, `game_table`). The circular chat history as a bounded queue, the line buffer, and
  the table of games as a partial map.

Time, random numbers, what clients send and when threads run are parameters, quantified over. Memory is always
available. Words travel high byte first, as on a little-endian host.

Where the code does not do what its comments or names say, the model follows the code:

* `update_bombs` overwrites an exploded entry with the last one and still advances, so one pass does not remove every
  expired bomb (`src/model.h:149`). `BombList.ClearedByOnePassIff` gives the exact condition,
  `BombList.OnePassCanLeaveAnExpiredBomb` the input, `BombList.HalvingLaw` what always holds.
* The count of a board update is cut to one byte. `Mirror.MirrorExact` says that an update mirrors the server exactly
  when at most 255 cells changed, `Mirror.CappedTickSendsAll` that 34 explosions are always within that, and
  `Overflow.CountWraps` is a run from a starting board that goes beyond. Nothing here limits how many ticks fall into
  a second: at one tick every 50 ms, that run takes a clock that stands still for its length and then jumps.
* `get_game` compares an id with the number of live games. `GameTable.LookupFindsAllIff` says when that finds every
  game, `GameTable.LookupMissesSparse` gives a run after which it does not.
* `remove_game` and `reset_games` look at slots without asking whether the array is there. Before the first add, and
  after a reset, `remove_game` of an id below the capacity and any `reset_games` follow a null pointer.
  `GameTable.RunFailsNowhereIff` says exactly which runs are free of that, `GameTable.EarlyRemoveFails` gives inputs.
* `init_model` puts a game into the table before it looks at its size, so a refused game keeps its slot
  (`GameTable.Table.InitModel`).
* When nobody survives a solo game the answer is -1, for which there is no message: no client is told
  (`Lifecycle.WinnerIsTold`).
* The server's window uses the limit 4095 while clients count to 8191. Numbers from 4095 on are never accepted
  (`Window.WindowExact`), so 4097 of every 8192 messages of a client are dropped (`Window.AcceptedOfRunIff`).
* Messages beyond the window at the start of a batch can be accepted once a later one has moved it
  (`Selection.FarMessageKept`); `Selection.OnlyFirstKeptIff` says exactly when a player has one action kept.
* A line of 60 characters fills its buffer without a NUL: the whole line is sent but the histories keep 59 characters.
  `ChatText.TextSurvives` gives the exact bound.
* The sort does not look at the entry next to a pivot, so a batch of two is always exchanged, whatever its numbers
  (`QuickSort.GameActionsSort`).
* The batch is sorted with a count read anew after its reset to 0 and outside the lock (`src/network_server.c:1054`),
  so usually not at all; the scan assumes no order.

## Model

| member | source | states |
|---|---|---|
| Rules.MoveEffect | src/model.c:483-505 | a living player steps exactly when its next cell is on the board and EMPTY, is then shown there and leaves an empty cell or its bomb; otherwise nothing changes |
| Rules.MoveKeepsInv | src/model.c:483-505 | moves keep grid, players and bomb list in agreement |
| Rules.DropEffect | src/model.c:506-539 | a drop, also by a dead player, adds one bomb of this time on the player's cell unless one is there; nothing else changes |
| Rules.DropKeepsInv | src/model.c:506-539 | drops keep the invariant, also under a living player |
| Rules.EvictEffect | src/model.c:577-589 | a disconnected player is dead and shown nowhere, everything else is unchanged |
| Rules.EvictKeepsInv | src/model.c:577-589 | disconnections keep the invariant |
| BombList.HalvingLaw | src/model.c:694-712 | a pass explodes at least half of the expired bombs and none younger than three seconds; at most half of the expired ones remain |
| BombList.PassConserves | src/model.c:694-712 | exploded and remaining bombs together are the bombs before the pass, as multisets |
| BombList.ClearedByOnePassIff | src/model.h:149 | one pass leaves no expired bomb exactly when none of the last k - 1 entries has expired, k being the number of expired bombs |
| BombList.OnePassCanLeaveAnExpiredBomb | src/model.c:701-710 | two expired bombs of which one pass leaves one |
| BombList.PassesClear | src/model.c:694-712 | at a fixed time floor(log2 k) + 1 passes leave none of k expired bombs |
| Blasts.BurnBurn | src/model.c:591-634 | burning two sets of cells one after the other is burning their union, whatever the order |
| Blasts.BurnKeepsInv | src/model.c:591-634 | burning any set of cells keeps the invariant |
| Blasts.ReachedIff | src/model.c:651-691 | a blast is the bomb's cell, its eight neighbours, and the four cells two steps along an axis behind no wall |
| Blasts.ExplodeEffect | src/model.c:591-710 | exactly the players on those cells die; destructible walls and players' tiles there and the bomb's own cell become EMPTY, all else stays; one bomb record goes |
| Blasts.ExplodeKeepsInv | src/model.c:704-709 | an explosion with the removal of its bomb keeps the invariant |
| Blasts.BlastGrows | src/model.c:651-691 | with fewer walls a blast reaches at least as far |
| Blasts.PassKeepsInv | src/model.c:694-712 | a bomb pass keeps the invariant, walls only disappear, nobody revives, and the bombs left are those of the list law |
| Blasts.PassSandwich | src/model.c:694-712 | who stands in an exploded bomb's blast on the starting board is dead afterwards; who was killed stands in one on the final board; nobody moves |
| Blasts.PassScorches | src/model.c:694-712 | the same for cells: what must burn does, only cells in a blast on the final board change, and only to EMPTY |
| Changes.ExplodeChanges | src/model.c:636-692 | an explosion changes at most nine cells, because the wall lattice blocks the diagonals or one axis |
| Changes.ExplodeChangesSeven | src/model.c:636-692 | an explosion changes at most seven cells besides those that lose a player's tile: an arm burns at most one wall |
| Changes.PassChanges | src/model.c:694-712 | a pass changes at most nine cells an explosion, and at most seven besides the players' tiles |
| Changes.PassChangesAtLeast | src/model.c:694-712 | a pass changes at least one cell an explosion |
| Runs.RunKeepsInv | src/model.c:483-712 | every run in any order keeps the invariant; walls only disappear, indestructible ones stay, nobody revives |
| Runs.TickChanges | src/model.c:742-760 | a tick with m moves, b drops and e explosions keeps the invariant and changes at most 2m + b + 9e cells, and at most 2m + b + 7e + 4 |
| Runs.TickIsRun | src/model.c:742-760 | a tick is the run of its moves and drops in their order, each at its time, and then one bomb pass |
| Setup.StartInv | src/model.c:143-248 | every board the set-up can produce satisfies the invariant |
| Setup.StartExact | src/model.c:143-248 | what every cell shows: players in the corners, walls on odd/odd cells, nothing within two cells of a corner along an edge, elsewhere nothing for a draw that is a multiple of twenty and a destructible wall for any other |
| Setup.StartExists | src/model.c:143-248 | for every legal size and every random stream there is a starting board |
| Setup.StartUnique | src/model.c:143-248 | size and stream leave only one |
| Setup.AllWalls | src/model.c:136-141 | a stream that draws 1 every time puts a destructible wall on each cell that may hold one |
| Setup.MayBeWallIff | src/model.c:158-184 | the loops draw for exactly the cells neither odd/odd nor near a corner |
| Setup.DrawsInOrder | src/model.c:158-184 | draws are used in the order of the loops |
| Setup.CornerFree | src/model.c:158-172 | around each corner two further cells along both edges are free, whatever the random walls |
| Setup.EveryRunIsSound | src/model.c:143-712 | from every starting board every run keeps the invariant |
| Setup.SurvivesOwnFirstBomb | src/model.c:143-248 | from every starting board each player has a script after which its own first bomb has exploded and it is alive |
| Engine.Game.constructor | src/model.c:205-248 | a new game is a starting board for the given random stream and valid |
| Engine.InitBoard | src/model.c:188-221 | sizes are made odd and reduced by the border; exactly sizes up to 10 are refused |
| Engine.Game.InitContent | src/model.c:143-186 | indestructible walls exactly on odd/odd cells; near a corner, and for a draw that is a multiple of twenty, EMPTY; elsewhere a destructible wall |
| Setup.DrawsApart | src/model.c:158-184 | no draw is used for two cells |
| Engine.Game.InitPlayers | src/model.c:223-248 | the four players alive in their corners, shown by their tiles |
| Engine.Game.PerformMove | src/model.c:483-505 | the in-place move is `Rules.Move` and keeps the object valid |
| Engine.Game.PlaceBomb | src/model.c:506-539 | the in-place drop, growing the array when full, is `Rules.Drop` |
| Engine.Game.SetPlayerDead | src/model.c:577-589 | the scan that stops at the first tile of the player clears its only one and marks it dead |
| Engine.Game.ApplyExplosionEffect | src/model.c:591-634 | burns exactly one cell, so that a destructible wall or a player there is gone, and reports exactly a wall |
| Engine.Game.ExplodeArm | src/model.c:651-683 | an arm that re-reads the grid it changes burns the cells its wall on the original grid lets through |
| Engine.Game.UpdateExplosion | src/model.c:636-692 | the four arms and the diagonals together burn exactly the blast set of the original board, and that has the effect told cell by cell |
| Engine.Game.ExplodeEntry | src/model.c:703-709 | explosion, removal of the BOMB tile and swap-removal of the record together have the effect of `Blasts.ExplodeEffect` |
| Engine.Game.UpdateBombs | src/model.c:694-712 | the loop with swap-removal is the bomb pass |
| Engine.Game.UpdateGameBoard | src/model.c:742-760 | the state becomes that of the tick and the result is the difference to the board before |
| Engine.Game.IsGameOver | src/model.c:762-787 | true exactly when at most one player lives, or a whole team is dead |
| Engine.Game.GetWinnerSolo | src/model.c:789-805 | answers what `Outcome.SoloAnswer` says, which is the survivor or nobody once the game is over |
| Engine.Game.GetWinnerTeam | src/model.c:807-823 | -1 exactly while both teams have a living player; otherwise a team whose opponents are all dead, team 1 when nobody is left |
| Outcome.TeamAnswerUnique | src/model.c:807-823 | these three facts leave only one answer |
| Outcome.AnswersAreWinners | src/model.c:789-823 | once the game is over the answers name the only survivor or nobody, and a team whose opponents are dead |
| Diffs.DiffOrdered | src/model.c:714-740 | records address differing cells in row-major order without repetition and carry the new tile |
| Diffs.DiffRecord | src/model.c:714-740 | each record gives column, row and new tile of a cell in which the boards differ |
| Diffs.DiffMinimal | src/model.c:714-740 | one record for each differing cell; empty exactly for equal boards |
| Diffs.PatchDiff | src/controller.c:306-311 | patching the old board with the diff of a beginning of the grid brings exactly that beginning up to date |
| Diffs.PatchPrefixExact | src/network_server.c:557-559 | with only the first k records the patched board is right exactly when none was left out |
| Diffs.GetDiffWithBoard | src/model.c:714-740 | the loop builds the diff |
| Wire.HeaderRoundTrip | src/messages.c:12-14 | a header comes back with 13 bits of code, two of id, one of team |
| Wire.HeaderBytes | src/messages.c:561-576 | every two bytes are the packing of what they unpack to |
| Wire.ActionRoundTrip | src/messages.c:181-265 | a serializable game action is decoded as it was, up to the team bit |
| Wire.ActionBytes | src/messages.c:233-265 | four bytes that decode to a known action are its serialization |
| Wire.EndRoundTrip | src/messages.c:500-559 | a serializable end-of-game message comes back with the mode, id and team bits it had |
| Wire.UpdateRoundTrip | src/messages.c:338-408 | up to 255 records with tiles up to 8 are decoded as they were encoded |
| Wire.BoardRoundTrip | src/messages.c:267-336 | a board with one-byte sides and tiles up to 8 is decoded as it was encoded |
| Layout.HeaderLayout | src/messages.c:12-14 | a request code below 32 leaves the first byte 0 and shares the second with id and team |
| Layout.ActionLayout | src/messages.c:181-231 | the four bytes of an action, with codes 5 and 6 |
| Layout.EndLayout | src/messages.c:500-535 | the two bytes of an end-of-game message, with codes 15 and 16 |
| Layout.UpdateLayout | src/messages.c:338-368 | number, count, and three bytes a record: column, row, tile |
| Layout.BoardLayout | src/messages.c:267-296 | number, height, width, and one byte a cell |
| Layout.ChatLayout | src/messages.c:410-446 | codes 7 and 8 to the server, 13 and 14 from it, length and text |
| Layout.TileCodes | src/model.h:33-45 | the numbers of the tiles |
| Layout.SerializersRefuse | src/messages.c:181-231 | exactly which actions, end-of-game and chat messages are not serialized |
| Layout.BoardSerializersRefuse | src/messages.c:267-368 | boards and updates are not serialized exactly when a tile exceeds 8 |
| Layout.DecodersAccept | src/messages.c:233-408 | exactly which first two bytes each decoder accepts; an update is also accepted with player id 2 |
| Layout.ChatDecoderAccepts | src/messages.c:462-498 | exactly which first two bytes the chat decoders accept |
| Layout.DecodersRead | src/messages.c:298-408 | what is read from any accepted update or board, tiles above 127 as negative |
| Wire.SerializeUpdate | src/messages.c:338-368 | the buffer holds the encoding, and there is none exactly when a tile exceeds 8 |
| Wire.DeserializeUpdate | src/messages.c:370-408 | reads what `DecodeUpdate` says, refusing wrong headers |
| Wire.SerializeBoard | src/messages.c:267-296 | the buffer holds the encoding, and there is none exactly when a tile exceeds 8 |
| Wire.DeserializeBoard | src/messages.c:298-336 | reads what `DecodeBoard` says, refusing wrong headers |
| Mirror.ClientBoard.UpdateBoard | src/controller.c:296-304 | the client's board becomes the received one |
| Mirror.ClientBoard.UpdateTileDiff | src/controller.c:306-311 | the loop patches the client's grid in place |
| Mirror.MirrorExact | src/network_server.c:1066-1078 | diff, message and patch give the client the server's board exactly when at most 255 cells differ |
| Mirror.BoardArrives | src/network_server.c:789-797 | a whole board replaces whatever the client had |
| Mirror.StepInStep | src/network_server.c:784-797 | each tick, pass, board and disconnection keeps client and server equal outside the cells marked stale |
| Mirror.RunInStep | src/network_server.c:784-797 | so does every run, also when a count wraps |
| Mirror.PassUnseenIff | src/network_server.c:785-797 | a once-per-second pass, about which no difference is sent, leaves a client in step exactly when no bomb had expired |
| Mirror.DisconnectUnseenIff | src/network_server.c:1231-1250 | a disconnection leaves a client in step exactly when the player was dead or on a bomb |
| Mirror.MirrorPlays | src/network_server.c:784-797 | on the server's side ticks, passes and disconnections are runs of the game, and sending changes nothing |
| Mirror.CappedTickSendsAll | src/messages.h:74-78 | with at most four moves, four drops and 34 explosions the count fits one byte and no record is left out |
| Mirror.MirrorHolds | src/network_server.c:1066-1078 | over runs of such ticks the client equals the server on every cell not changed by a once-per-second pass or a disconnection since the last whole board |
| Overflow.CrowdedTickWraps | src/network_server.c:557-559 | from a board in step with 511 expired bombs, a tick puts the client out of step |
| Overflow.CountWraps | src/network_server.c:557-559 | a run of ticks of one player's moves and drops, from a starting board the client has, after which the client's board is not the server's |
| Window.WindowExact | src/network_server.c:857-866 | for every limit from 3 on a number is accepted exactly when it is in range and 1 to limit/2 ahead, one more when the window wraps |
| Window.OlderRefused | src/network_server.c:857-866 | with an odd limit, a number accepted before is refused after one at least as far ahead has been accepted |
| Window.OlderAcceptedForEvenLimit | src/network_server.c:864 | with any even limit from 4 on it need not be; both limits of the program are odd, so this only shows that `OlderRefused` needs an odd one |
| Window.AcceptedOfRunIff | src/controller.c:224 | of a client numbering from 0 modulo 8192, against a server starting one below its limit, exactly the messages numbered below the limit are accepted |
| QuickSort.Partition | src/network_server.c:874-897 | rearranges only the range, the pivot ends before the end of it, nothing before it stays right of it and all behind it does, but for the entry that stood next to it |
| QuickSort.QuickSort | src/network_server.c:899-907 | ends, permutes exactly the range and touches nothing outside it; two entries are always exchanged |
| QuickSort.GameActionsSort | src/network_server.c:909-911 | sorting none or one entry leaves the batch as it arrived |
| Selection.GetPlayerActions | src/network_server.c:929-984 | for any batch the scan stays inside its four slots, keeps exactly the messages `Kept` describes, latest first, each for its player and with the action its number stands for, and sets each last number to that of the player's first kept message or leaves it |
| Selection.KeptLists | src/network_server.c:960-983 | every kept message, and nothing else, is in the list of its kind with the action of its number, latest first |
| Selection.KeptOnce | src/network_server.c:960-973 | at most one message of each kind is kept for a player |
| Selection.KeptListsDistinct | src/network_server.c:960-983 | the kept moves, and the kept drops, name each player at most once |
| Selection.FirstIsKept | src/network_server.c:949-970 | a player with a valid message has its latest valid one kept |
| Selection.LastStaysInRange | src/network_server.c:966-981 | last numbers stay below the limit |
| Selection.OnlyFirstKeptIff | src/network_server.c:949-984 | one action is kept for a player exactly when no earlier message of the other kind lies in the window the first one opens |
| Selection.OldestFirstKeepsNewestOnly | src/network_server.c:949-984 | if a player's numbers lie oldest first, exactly the newest valid one is kept, also at the wrapped boundary |
| Selection.FarMessageKept | src/network_server.c:955-982 | a batch in which a number outside the starting window is kept besides the first |
| TickPipeline.SelectedActions | src/network_server.c:929-1007 | any batch gives at most four moves and four drops of legal players |
| TickPipeline.SelectedTickKeepsMirror | src/network_server.c:1056-1078 | a tick on the selected actions with at most 34 explosions keeps equal boards equal |
| Lifecycle.StepKeepsLifeInv | src/network_server.c:1193-1309 | every step of every thread keeps the invariant of the shutdown |
| Lifecycle.TeardownIsSafe | src/network_server.c:1255-1308 | in every interleaving, when the last TCP thread asks for the winner the game is over and not removed, the others are gone, what is announced is the winner, and that is who the clients read |
| Lifecycle.WinnerIsTold | src/network_server.c:621-652 | there is a message always in team mode, in solo mode exactly when somebody has survived; it decodes to this mode and names the survivor or the team that has won |
| Lifecycle.RemovedIsQuiet | src/network_server.c:801-822 | once the game is removed no thread can take a step |
| Lifecycle.CountersAlive | src/network_server.c:1339-1341 | the ready and left counters are never used after they have been freed |
| Lifecycle.EndIsNoticed | src/network_server.c:799-807 | after its check the once-per-second thread can set the flag exactly when the game is over, and goes on with a pass exactly when it is not |
| Lifecycle.FlagStopsUdp | src/network_server.c:1034-1041 | both UDP threads stop after looking at the flag exactly when it is set |
| Lifecycle.LastReadyStarts | src/network_server.c:1337-1344 | the last player to be ready starts the other threads and wakes the players; before that nothing runs |
| Lifecycle.LastLeaverTearsDown | src/network_server.c:1255-1308 | a leaving thread tears the game down exactly when the other three are gone |
| Lifecycle.StepsPlay | src/network_server.c:784-797 | each step of a thread changes the game by a run: a disconnection, a pass, a tick, or nothing |
| Ending.GameEnds | src/network_server.c:801-822 | from every starting board a behaviour in which a thread leaves on the flag, the survivor is announced and the game is removed |
| ChatRing.QueueKeepsLast | src/chat_model.c:142-170 | after any attempts the bounded queue holds the last 23 accepted messages in order |
| ChatRing.CreateChatNode | src/chat_model.c:112-133 | refuses exactly unknown senders and empty texts; keeps at most 59 characters |
| ChatRing.ChatHistory.Append | src/chat_model.c:142-170 | relinking keeps the ring and pushes onto the bounded queue |
| ChatRing.ChatHistory.AddMessageFromServer | src/chat_model.c:135-173 | accepted messages are pushed, rejected ones change nothing |
| ChatRing.ChatHistory.FindLast | src/chat_model.c:146-148 | the walk to the node before the head ends, at the last node |
| ChatRing.ChatHistory.Walk | src/view.c:513-525 | `count` steps from the head list the messages in order and return to it |
| ChatRing.ChatHistory.Free | src/chat_model.c:40-65 | frees the second to last node in order, then the head: every node exactly once |
| ChatText.ChatLine.AddToLine | src/chat_model.c:103-110 | appends printable characters while there is room; printable up to the cursor, NUL after it |
| ChatText.ChatLine.DecrementLine | src/chat_model.c:85-92 | removes the last character and keeps that shape |
| ChatText.ChatLine.ClearLine | src/chat_model.c:94-101 | leaves an all-NUL buffer |
| ChatText.Chat.AddMessageFromClient | src/chat_model.c:175-226 | hands out the typed line and puts its kept part into the history, or changes nothing |
| ChatText.Chat.SendLine | src/controller.c:170-182 | what is sent is the encoding of the typed line, which is then cleared |
| ChatText.ChatRoundTrip | src/messages.c:410-498 | a printable text below 256 characters is decoded as it was encoded |
| ChatText.TextSurvives | src/messages.c:410-498 | server and recipient read the typed text; whatever their histories held, those of sender and recipient then end with the same message, which shows the typed text exactly below 60 characters |
| GameTable.ApplyRefines | src/model.c:42-111 | an add puts its game under an id not in use, a removal takes one id away, a reset all; nothing else changes |
| GameTable.HeldUntilRemoved | src/model.c:42-111 | after any run that follows no null pointer an id holds a game exactly when an add of it was answered this id and nothing has removed it since |
| GameTable.RunFailsNowhereIff | src/model.c:93-111 | a run follows no null pointer exactly when each reset, and each removal of an id below the capacity, comes after an add with no reset in between |
| GameTable.EarlyRemoveFails | src/model.c:94 | a removal from a new table, a reset of it and a removal after a reset follow a null pointer; after an add the removal does not |
| GameTable.Table.AddGame | src/model.c:42-84 | always stores the game in a slot that was free, growing the table when full, and returns its id |
| GameTable.Table.Grow | src/model.c:54-67 | doubles the slots and keeps every id |
| GameTable.Table.RemoveGame | src/model.c:93-102 | frees exactly one slot, or does nothing; may be asked for an id beyond the capacity while there is no array |
| GameTable.Table.ResetGames | src/model.c:104-111 | leaves no array and the capacity as it was |
| GameTable.Table.InitModel | src/model.c:261-287 | a slot is taken in any case; the answer is -1 exactly for refused sizes, otherwise that slot holds a game just set up |
| GameTable.LiveSize | src/model.c:34-35 | the live count is the size of the map |
| GameTable.FreeSlotExists | src/model.c:75-81 | a table with fewer live games than slots has a free one, so the search never fails |
| GameTable.LookupFindsAllIff | src/model.c:86-91 | `get_game` finds every game exactly when the live ones fill the first slots |
| GameTable.LookupMissesSparse | src/model.c:86-91 | after two adds to a new table and the removal of the first game, it misses the second |

## Left out

- Sockets, multicast, polling, partial sends and receives, ports and addresses: input and output.
- The view and keyboard handling, apart from the walk over the chat history and the send action.
- The connection messages (initial, ready, information): the same header packing with fixed fields.
- Chat routing by team and the choice of the game with id 0 for it: a finite table.
- Progress of the threads: wakeups can be lost, so only safety is stated. The join barrier is not part of this model;
  a failing `select` is excluded, as it lets a thread leave with its player alive.
- TickPipeline.SelectedActions: takes the concatenation of the kept moves and drops as the actions of a tick. The
  source's copy of the two lists into one scales its offset twice.
- Interleavings between taking a board or a difference and sending it: one step of the mirror, with delivery in
  order and without loss.
- The sequence numbers of board messages: clients do not read them.
- QuickSort.GameActionsSort: takes a count within the batch. The source reads it without the lock, and messages that
  have arrived meanwhile may have raised it beyond the copied batch.
- Overflow.CountWraps: does not model how many ticks fall into a second, nor how the clock moves.
- Integer widths of coordinates, times and counters in memory: unbounded here. One-byte and two-byte fields on the
  wire are bounded.
- Allocation failure and leaks.
- Engine.Game.PlaceBomb: does not state the capacity the bomb array grows to, which no caller sees.
- GameTable.Table.InitModel: leaves the chat of the game to `ChatText`.
