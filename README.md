# ELSbot move engine, modelled in Dafny

This project models the move-decision engine of `ELSbot`, a bot for a
grid-based, multiplayer light-cycle game. On every tick the bot receives a
snapshot of the game, finds its own player in it, and picks one of four moves
with a zigzag heuristic. It must avoid walls, occupied cells and its own
remembered trail. It sends the move and records the cell the move leads to in
a bounded trail memory: a set for membership plus an arrival-ordered queue,
capped at 5000 cells.

Modules:

- `Geometry` (geometry.dfy): grid cells, the closed `Direction` enumeration and its unit offsets (`getDirectionVector`).
- `Game` (game.dfy): the snapshot (`players`, plus the opaque `isInsideGrid` and `isCellEmpty` queries) and the lookup of the bot's own player.
- `Trail` (trail.dfy): the trail update of `sendMove` as a function on the pair (set, queue), with its invariants, its FIFO behaviour and the duplicate-entry hazard.
- `Policy` (policy.dfy): `isValidMove` and `decideMove` as functions, with the parity, ordering and safety properties.
- `Bot` (bot.dfy): the `ELSbot` class. Its fields are `state`, `myPlayer`, `movingDown`, `trail` and `trailQueue`. Its methods `Record`, `DecideMove`, `UpdateState`, `SendMove`, `Tick` and `Run` update those fields in place. Each is proved against the functions above.
  `EndToEndScenario` is a worked example, not a model of a source function: a bot called "bot1" at (5, 5) on an open 10 x 10 grid moves South and then remembers only (5, 6).

The grid queries `isInsideGrid` and `isCellEmpty` come from the game-state
library, which is not part of this model. They are fields of `GameState` of
type `Position -> bool`, and nothing is assumed about them. The network
connection is not modelled: each snapshot is an input of `Tick`, and the move
sent to the server is its result.

The zigzag is a vertical sweep. The bot keeps its up/down heading while the cell that way is valid, and turns East, reversing the heading, only when that cell is blocked (client_evaks.cpp:86-93). `Policy.OpenGridKeepsHeadingSouth` proves that in an open grid the bot keeps heading South, one tick at a time, with an invariant that carries over to the next tick.

Two properties one might expect of this code do not hold as written. The model proves what the code does:

- The set and the queue are described as one trail (client_evaks.cpp:34-36), so one expects them to hold the same cells. They need not. The last-resort East move (:108-109) can lead to a cell that is already remembered. `trail.insert` then does nothing, but `trailQueue.push` adds a second copy (:143-144). A later eviction of the older copy erases the cell from the set while the newer copy stays queued (:147-150). The model proves the weaker invariant that always holds, `Trail.Bounded` (set ⊆ queue, size ≤ 5000). It proves the stronger `Trail.Consistent` (set = queue elements, no duplicates) only when the recorded cell was not already remembered. `Trail.RecordAgainDuplicates` and `Trail.EvictingOlderCopyForgets` show the divergence.
- The capacity is described as the maximum number of positions to track (:37), so one expects the trail to hold min(records made, 5000) cells. That holds for the queue length (`Trail.RecordIsFifo`, `Bot.ELSbot.Run`). When every recorded cell is new it holds for the set too (`Trail.TrailSizeWhenDistinct`). A repeated cell keeps the set smaller than the queue until every copy of it has been evicted.

## Model

| member | source | states |
|---|---|---|
| Geometry.Offset | src/client/client_evaks.cpp:40-50 | each direction maps to a unit offset (abs(dx) + abs(dy) = 1); dx = 0 exactly for North and South; the offset points to larger coordinates exactly for South and East. Together these fix North=(0,-1), South=(0,1), East=(1,0), West=(-1,0) |
| Geometry.Neighbour | src/client/client_evaks.cpp:65 | the destination `position + getDirectionVector(d)` is exactly one grid step from the position |
| Geometry.NeighboursDistinct | src/client/client_evaks.cpp:40-45 | the four offsets are pairwise distinct: two directions lead to the same cell iff they are equal |
| Game.IndexOfPlayer | src/client/client_evaks.cpp:116-126 | the result is the index of the first player whose name matches, with no match before it; it is None iff no player has that name |
| Game.FindPlayer | src/client/client_evaks.cpp:116-123 | the roster scan returns the first matching player (the one at IndexOfPlayer), and returns nothing iff no player has the name |
| Trail.RecordIsFifo | src/client/client_evaks.cpp:143-151 | after a record the queue length is min(old length + 1, 5000); below capacity the cell is appended; at capacity exactly the front entry is dropped and the others keep their order |
| Trail.RecordKeepsBounded | src/client/client_evaks.cpp:142-151 | every record, duplicates included, keeps the queue within 5000 entries and every remembered cell queued |
| Trail.RecordKeepsConsistent | src/client/client_evaks.cpp:142-151 | recording a cell not yet remembered keeps set = queue elements with a duplicate-free queue, and the cell is remembered afterwards |
| Trail.RecordAgainDuplicates | src/client/client_evaks.cpp:143-144 | recording a remembered cell below capacity puts a duplicate in the queue |
| Trail.EvictingOlderCopyForgets | src/client/client_evaks.cpp:147-150 | at capacity, re-recording the front cell leaves it queued but no longer in the set, so set and queue disagree |
| Trail.RecordAllKeepsNewest | src/client/client_evaks.cpp:141-151 | from an empty trail, after recording any sequence of cells the queue is exactly the newest min(n, 5000) of them, oldest first |
| Trail.NewCellNotRemembered | src/client/client_evaks.cpp:141-151 | when the recorded cells are pairwise distinct and the trail built from all but the last is consistent (set = queue elements, which `Trail.RecordAllDistinctConsistent` proves for every distinct prefix), the last cell is not yet in the set |
| Trail.RecordAllDistinctConsistent | src/client/client_evaks.cpp:141-151 | from an empty trail, recording pairwise distinct cells keeps set and queue in agreement after every record |
| Trail.ForgetsExactlyTheOldest | src/client/client_evaks.cpp:141-151 | after recording 5000 + k distinct cells, a cell is remembered iff it is among the newest 5000, so exactly the k oldest are forgotten |
| Trail.DistinctQueueSize | src/client/client_evaks.cpp:34-37 | a duplicate-free queue holds as many distinct cells as it has entries |
| Trail.TrailSizeWhenDistinct | src/client/client_evaks.cpp:141-151 | from an empty trail, after recording n pairwise distinct cells the set holds exactly min(n, 5000) cells |
| Policy.ValidMoveIffAllChecks | src/client/client_evaks.cpp:64-79 | a move is valid iff its cell is inside the grid, empty, and not in the trail; any one failing check rejects it |
| Policy.OutsideGridNeverValid | src/client/client_evaks.cpp:66-69 | a destination outside the grid is never valid, whatever the occupancy and the trail |
| Policy.ParityRule | src/client/client_evaks.cpp:83-95 | a valid zigzag heading (South when moving down, else North) is chosen and keeps the parity; otherwise a valid East is chosen and flips it; the parity flips iff that second case happens |
| Policy.FallbackOrder | src/client/client_evaks.cpp:97-109 | when neither the zigzag heading nor East is valid, the move is the first valid one of West, North, South, or East if none is, and the parity is kept |
| Policy.DecideIsSafeWhenPossible | src/client/client_evaks.cpp:87-109 | if any of the four moves is valid, the chosen move is valid; if none is, the choice is East with the parity kept, and nothing fails |
| Policy.ValidMoveKeepsTrailConsistent | src/client/client_evaks.cpp:74 | the cell of a valid move is not in the trail, so recording it keeps the trail consistent and remembered |
| Policy.OpenGridKeepsHeadingSouth | src/client/client_evaks.cpp:83-88 | with every cell inside and empty, parity down and every remembered cell at or above the current row, the choice is South with parity kept, and after recording, every remembered cell is at or above the new row |
| Bot.ELSbot.constructor | src/client/client_evaks.cpp:31-37 | a new bot has an empty trail and queue, its zigzag heading starts south (`movingDown` is true), and it satisfies both trail invariants |
| Bot.ELSbot.Record | src/client/client_evaks.cpp:142-151 | the in-place update of `trail` and `trailQueue` produces exactly the Recorded value; it keeps Valid; it keeps the strong invariant when the cell was new |
| Bot.ELSbot.DecideMove | src/client/client_evaks.cpp:82-110 | the returned move and the new `movingDown` are exactly the choice of Decide on the old parity, the snapshot, the position and the trail |
| Bot.ELSbot.UpdateState | src/client/client_evaks.cpp:113-132 | the snapshot is stored; the result is true iff some player has the bot's name; `myPlayer` becomes the first such player, and is left as it was when there is none |
| Bot.ELSbot.SendMove | src/client/client_evaks.cpp:135-156 | the sent move is the decided one; the trail records `position + offset(move)`; the strong invariant survives whenever some move was valid |
| Bot.ELSbot.Tick | src/client/client_evaks.cpp:176-179 | a tick fails iff the bot's name is missing from the snapshot, and then the parity, trail and player are unchanged; otherwise it decides and records as above, and keeps Valid |
| Bot.ELSbot.Run | src/client/client_evaks.cpp:174-184 | ticks once per snapshot until one fails; on failure the failing snapshot lacks the bot's name; the queue length ends at min(old length + moves sent, 5000) |

## Left out

- The network connection (`connect`, `isActive`, `receiveGameState`, `sendMove`) and the liveness polling of `run`: the snapshots are inputs and the sent move is an output. `Run` takes the finite list of snapshots received before the connection closes.
- The internals of `GameState` (`isInsideGrid`, `isCellEmpty`, how the roster is built): opaque function fields. `Player` keeps only the name and position that the bot reads.
- Logging (`spdlog`) and `directionToString`: diagnostics only.
- `Vector2iHash`: a Dafny `set` compares cells by value.
- `BotException`, `exit(1)` and the argument check of `main`: a missing player becomes the `Failed(PlayerNotFound)` result, and `Run` stops there. The invalid-direction exception of `getDirectionVector` cannot occur, because `Direction` is a closed datatype.
- 32-bit coordinates: positions are unbounded integers. `position + offset` cannot overflow on a grid of realistic size.
- Bot.ELSbot.Run: states only the outcome, the number of moves and the queue length; what each step does is stated by Tick.
