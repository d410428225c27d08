/** The per-tick snapshot received from the server, and the lookup of the
    bot's own player in it (client_evaks.cpp:113-132). */
module Game {
  import opened Geometry

  datatype Option<T> = None | Some(value: T)

  /** The part of a player the bot reads: its name and its current cell. */
  datatype Player = Player(name: string, position: Position)

  /** A snapshot of the game. Grid bounds and cell occupancy are queries the
      game-state service answers; the model keeps them opaque. */
  datatype GameState = GameState(
    players: seq<Player>,
    isInsideGrid: Position -> bool,
    isCellEmpty: Position -> bool)

  /** The index of the first player called `name`, if any. */
  function IndexOfPlayer(players: seq<Player>, name: string): (r: Option<nat>)
    ensures r.Some? ==> r.value < |players| && players[r.value].name == name
    ensures r.Some? ==> forall j :: 0 <= j < r.value ==> players[j].name != name
    ensures r.None? <==> forall j :: 0 <= j < |players| ==> players[j].name != name
  {
    if |players| == 0 then None
    else if players[0].name == name then Some(0)
    else match IndexOfPlayer(players[1..], name)
      case None => None
      case Some(i) => Some(i + 1)
  }

  /** The loop of updateState: scan the roster and stop at the first player
      whose name matches. */
  method FindPlayer(players: seq<Player>, name: string) returns (r: Option<Player>)
    ensures r.None? <==> forall j :: 0 <= j < |players| ==> players[j].name != name
    ensures r.Some? ==> r.value.name == name
    ensures r.Some? ==> (IndexOfPlayer(players, name).Some? &&
                         r.value == players[IndexOfPlayer(players, name).value])
  {
    r := None;
    var i := 0;
    while i < |players|
      invariant 0 <= i <= |players|
      invariant forall j :: 0 <= j < i ==> players[j].name != name
    {
      if players[i].name == name {
        r := Some(players[i]);
        return;
      }
      i := i + 1;
    }
  }
}
