/** The bot object: its per-tick state, its zigzag parity and its trail, and
    the steps of one tick (client_evaks.cpp:25-37, 82-184). */
module Bot {
  import opened Geometry
  import opened Game
  import opened Trail
  import opened Policy

  /** Why a tick fails: the bot's own player is not in the snapshot (it was eliminated). */
  datatype TickError = PlayerNotFound

  /** What a tick ends in: the move sent to the server, or a fatal error. */
  datatype TickResult = Moved(move: Direction) | Failed(error: TickError)

  class ELSbot {
    const name: string
    var state: GameState
    var myPlayer: Player
    var movingDown: bool
    var trail: set<Position>
    var trailQueue: seq<Position>

    /** The two trail containers as one value. */
    function Memory(): TrailMemory
      reads this
    {
      TrailMemory(trail, trailQueue)
    }

    /** The object invariant: the trail fits its capacity and every remembered cell is queued. */
    ghost predicate Valid()
      reads this
    {
      Bounded(Memory())
    }

    /** A fresh bot remembers nothing and its zigzag heading starts south.
        Connecting to the server is not part of this model. The source
        default-constructs `state` and `myPlayer`; the values here are only
        placeholders, since every tick replaces `state` before reading it. */
    constructor (botName: string)
      ensures Valid() && Consistent(Memory())
      ensures name == botName && movingDown
      ensures trail == {} && trailQueue == []
    {
      name := botName;
      state := GameState([], _ => false, _ => true);
      myPlayer := Player(botName, Position(0, 0));
      movingDown := true;
      trail := {};
      trailQueue := [];
    }

    /** The trail update at the end of sendMove. */
    method Record(newPos: Position)
      requires Valid()
      modifies this`trail, this`trailQueue
      ensures Valid()
      ensures Memory() == Recorded(old(Memory()), newPos)
      ensures old(Consistent(Memory())) && newPos !in old(trail) ==>
        Consistent(Memory()) && newPos in trail
    {
      ghost var before := Memory();
      trail := trail + {newPos};
      trailQueue := trailQueue + [newPos];
      if |trailQueue| > MaxTrailSize {
        var oldPos := trailQueue[0];
        trailQueue := trailQueue[1..];
        trail := trail - {oldPos};
      }
      RecordKeepsBounded(before, newPos);
      if Consistent(before) && newPos !in before.trail {
        RecordKeepsConsistent(before, newPos);
      }
    }

    /** decideMove: try the zigzag heading, then east (flipping the parity),
        then west, north and south in turn, and fall back to east. */
    method DecideMove() returns (move: Direction)
      modifies this`movingDown
      ensures Choice(move, movingDown) == Decide(old(movingDown), state, myPlayer.position, trail)
    {
      var zigzag := ZigzagDirection(movingDown);
      if IsValidMove(state, myPlayer.position, trail, zigzag) {
        return zigzag;
      }
      if IsValidMove(state, myPlayer.position, trail, PrimaryDirection) {
        movingDown := !movingDown;
        return PrimaryDirection;
      }
      FallbackOrder(movingDown, state, myPlayer.position, trail);
      var alternatives := Fallbacks;
      for i := 0 to |alternatives|
        invariant forall j :: 0 <= j < i ==> !IsValidMove(state, myPlayer.position, trail, alternatives[j])
      {
        if IsValidMove(state, myPlayer.position, trail, alternatives[i]) {
          return alternatives[i];
        }
      }
      return PrimaryDirection;
    }

    /** updateState: take the new snapshot, then make the first player with
        the bot's name its own player; report whether there was one. The
        snapshot is taken even when the lookup fails. */
    method UpdateState(snapshot: GameState) returns (found: bool)
      modifies this`state, this`myPlayer
      ensures state == snapshot
      ensures found <==> IndexOfPlayer(snapshot.players, name).Some?
      ensures found ==> myPlayer == snapshot.players[IndexOfPlayer(snapshot.players, name).value]
      ensures !found ==> myPlayer == old(myPlayer)
    {
      state := snapshot;
      var r := FindPlayer(state.players, name);
      found := r.Some?;
      if found {
        myPlayer := r.value;
      }
    }

    /** sendMove: decide, hand the move to the server (the returned value) and
        record the cell the move leads to. */
    method SendMove() returns (move: Direction)
      requires Valid()
      modifies this`movingDown, this`trail, this`trailQueue
      ensures Valid()
      ensures Choice(move, movingDown) == Decide(old(movingDown), state, myPlayer.position, old(trail))
      ensures Memory() == Recorded(old(Memory()), Neighbour(myPlayer.position, move))
      ensures old(Consistent(Memory())) && (exists d :: IsValidMove(state, myPlayer.position, old(trail), d)) ==>
        Consistent(Memory())
    {
      move := DecideMove();
      DecideIsSafeWhenPossible(old(movingDown), state, myPlayer.position, trail);
      var newPos := Neighbour(myPlayer.position, move);
      Record(newPos);
    }

    /** One iteration of the run loop: updateState, then sendMove. A missing
        player ends the tick with an error before anything else changes. */
    method Tick(snapshot: GameState) returns (r: TickResult)
      requires Valid()
      modifies this`state, this`myPlayer, this`movingDown, this`trail, this`trailQueue
      ensures Valid()
      ensures state == snapshot
      ensures r.Failed? <==> IndexOfPlayer(snapshot.players, name).None?
      ensures r.Failed? ==> myPlayer == old(myPlayer) && movingDown == old(movingDown) &&
                            trail == old(trail) && trailQueue == old(trailQueue)
      ensures r.Moved? ==> IndexOfPlayer(snapshot.players, name).Some? &&
                           myPlayer == snapshot.players[IndexOfPlayer(snapshot.players, name).value]
      ensures r.Moved? ==> Choice(r.move, movingDown) == Decide(old(movingDown), snapshot, myPlayer.position, old(trail))
      ensures r.Moved? ==> Memory() == Recorded(old(Memory()), Neighbour(myPlayer.position, r.move))
      ensures r.Moved? && old(Consistent(Memory())) &&
              (exists d :: IsValidMove(snapshot, myPlayer.position, old(trail), d)) ==>
        Consistent(Memory())
    {
      var found := UpdateState(snapshot);
      if !found {
        return Failed(PlayerNotFound);
      }
      var move := SendMove();
      r := Moved(move);
    }

    /** run, over the snapshots the server sends before the connection closes:
        one tick per snapshot, stopping at the first failed tick. Returns the
        moves sent and whether the run ended in failure. */
    method Run(snapshots: seq<GameState>) returns (moves: seq<Direction>, failed: bool)
      requires Valid()
      modifies this`state, this`myPlayer, this`movingDown, this`trail, this`trailQueue
      ensures Valid()
      ensures |moves| <= |snapshots|
      ensures !failed ==> |moves| == |snapshots|
      ensures failed ==> |moves| < |snapshots| && IndexOfPlayer(snapshots[|moves|].players, name).None?
      ensures |trailQueue| == Min(|old(trailQueue)| + |moves|, MaxTrailSize)
    {
      moves, failed := [], false;
      var i := 0;
      while i < |snapshots|
        invariant 0 <= i <= |snapshots|
        invariant Valid()
        invariant |moves| == i
        invariant |trailQueue| == Min(|old(trailQueue)| + i, MaxTrailSize)
      {
        ghost var before := Memory();
        var r := Tick(snapshots[i]);
        if r.Failed? {
          failed := true;
          return;
        }
        RecordIsFifo(before, Neighbour(myPlayer.position, r.move));
        moves := moves + [r.move];
        i := i + 1;
      }
    }
  }

  /** A bot called "bot1" at (5, 5) on a 10 x 10 grid with every cell empty,
      an empty trail and the parity pointing south moves south and then
      remembers exactly (5, 6). */
  method EndToEndScenario()
  {
    var bot := new ELSbot("bot1");
    var snapshot := GameState(
      [Player("bot1", Position(5, 5))],
      (p: Position) => 0 <= p.x < 10 && 0 <= p.y < 10,
      _ => true);
    var r := bot.Tick(snapshot);
    assert IndexOfPlayer(snapshot.players, "bot1") == Some(0);
    assert r == Moved(South);
    assert bot.trail == {Position(5, 6)} && |bot.trailQueue| == 1;
  }
}
