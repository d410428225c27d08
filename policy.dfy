/** The move validator and the zigzag move policy (client_evaks.cpp:63-110). */
module Policy {
  import opened Geometry
  import opened Game
  import opened Trail

  /** primaryDirection: the heading the bot drifts along. */
  const PrimaryDirection: Direction := East

  /** The alternatives tried, in this order, when neither the zigzag heading
      nor the primary one is safe. */
  const Fallbacks: seq<Direction> := [West, North, South]

  /** isValidMove: the three checks in the order the source makes them; any
      single failing check rejects the move. */
  predicate IsValidMove(state: GameState, pos: Position, trail: set<Position>, d: Direction)
  {
    var newPos := Neighbour(pos, d);
    if !state.isInsideGrid(newPos) then false
    else if !state.isCellEmpty(newPos) then false
    else if newPos in trail then false
    else true
  }

  /** A move is valid exactly when its cell is inside the grid, empty and not in the trail. */
  lemma ValidMoveIffAllChecks(state: GameState, pos: Position, trail: set<Position>, d: Direction)
    ensures IsValidMove(state, pos, trail, d) <==>
      && state.isInsideGrid(Neighbour(pos, d))
      && state.isCellEmpty(Neighbour(pos, d))
      && Neighbour(pos, d) !in trail
  {
  }

  /** The zigzag heading for a parity flag. */
  function ZigzagDirection(movingDown: bool): Direction
  {
    if movingDown then South else North
  }

  /** The move chosen and the parity flag after the choice. */
  datatype Choice = Choice(move: Direction, movingDown: bool)

  /** decideMove as a function of the parity flag and what the validator reports. */
  function Decide(movingDown: bool, state: GameState, pos: Position, trail: set<Position>): Choice
  {
    var zigzag := ZigzagDirection(movingDown);
    if IsValidMove(state, pos, trail, zigzag) then Choice(zigzag, movingDown)
    else if IsValidMove(state, pos, trail, PrimaryDirection) then Choice(PrimaryDirection, !movingDown)
    else if IsValidMove(state, pos, trail, West) then Choice(West, movingDown)
    else if IsValidMove(state, pos, trail, North) then Choice(North, movingDown)
    else if IsValidMove(state, pos, trail, South) then Choice(South, movingDown)
    else Choice(PrimaryDirection, movingDown)
  }

  /** Parity rule: a safe zigzag heading wins and keeps the parity; otherwise a
      safe east move wins and flips it; nothing else flips it. */
  lemma ParityRule(movingDown: bool, state: GameState, pos: Position, trail: set<Position>)
    ensures IsValidMove(state, pos, trail, ZigzagDirection(movingDown)) ==>
      Decide(movingDown, state, pos, trail) == Choice(ZigzagDirection(movingDown), movingDown)
    ensures (!IsValidMove(state, pos, trail, ZigzagDirection(movingDown)) &&
             IsValidMove(state, pos, trail, East)) ==>
      Decide(movingDown, state, pos, trail) == Choice(East, !movingDown)
    ensures Decide(movingDown, state, pos, trail).movingDown != movingDown <==>
      !IsValidMove(state, pos, trail, ZigzagDirection(movingDown)) && IsValidMove(state, pos, trail, East)
  {
  }

  /** Fallback ordering: when neither the zigzag heading nor east is safe, the
      move is the first safe one of west, north, south, and east when none is. */
  lemma FallbackOrder(movingDown: bool, state: GameState, pos: Position, trail: set<Position>)
    requires !IsValidMove(state, pos, trail, ZigzagDirection(movingDown))
    requires !IsValidMove(state, pos, trail, East)
    ensures Decide(movingDown, state, pos, trail).movingDown == movingDown
    ensures forall i :: 0 <= i < |Fallbacks| ==>
      (IsValidMove(state, pos, trail, Fallbacks[i]) &&
       (forall j :: 0 <= j < i ==> !IsValidMove(state, pos, trail, Fallbacks[j]))) ==>
      Decide(movingDown, state, pos, trail).move == Fallbacks[i]
    ensures (forall i :: 0 <= i < |Fallbacks| ==> !IsValidMove(state, pos, trail, Fallbacks[i])) ==>
      Decide(movingDown, state, pos, trail).move == East
  {
    assert Fallbacks[0] == West && Fallbacks[1] == North && Fallbacks[2] == South;
  }

  /** Soundness and completeness: if any of the four moves is safe, the chosen
      move is safe; the choice can be unsafe only when all four are unsafe, and
      then it is east with the parity kept. */
  lemma DecideIsSafeWhenPossible(movingDown: bool, state: GameState, pos: Position, trail: set<Position>)
    ensures (exists d :: IsValidMove(state, pos, trail, d)) ==>
      IsValidMove(state, pos, trail, Decide(movingDown, state, pos, trail).move)
    ensures (forall d :: !IsValidMove(state, pos, trail, d)) ==>
      Decide(movingDown, state, pos, trail) == Choice(East, movingDown)
  {
  }

  /** A cell outside the grid is never a valid destination, whatever the occupancy and trail. */
  lemma OutsideGridNeverValid(state: GameState, pos: Position, trail: set<Position>, d: Direction)
    requires !state.isInsideGrid(Neighbour(pos, d))
    ensures !IsValidMove(state, pos, trail, d)
  {
  }

  /** A valid move never leads into the trail, so recording its cell keeps the trail consistent. */
  lemma ValidMoveKeepsTrailConsistent(m: TrailMemory, state: GameState, pos: Position, d: Direction)
    requires Consistent(m)
    requires IsValidMove(state, pos, m.trail, d)
    ensures Consistent(Recorded(m, Neighbour(pos, d)))
    ensures Neighbour(pos, d) in Recorded(m, Neighbour(pos, d)).trail
  {
    RecordKeepsConsistent(m, Neighbour(pos, d));
  }

  /** In a grid that reports every cell inside and empty, heading south with
      every remembered cell at or above the current row, the policy moves south
      again and the recorded cell keeps every remembered cell at or above the
      new row: the vertical sweep continues south until something blocks it. */
  lemma OpenGridKeepsHeadingSouth(state: GameState, pos: Position, m: TrailMemory)
    requires forall q :: state.isInsideGrid(q) && state.isCellEmpty(q)
    requires forall q :: q in m.trail ==> q.y <= pos.y
    ensures Decide(true, state, pos, m.trail) == Choice(South, true)
    ensures forall q :: q in Recorded(m, Neighbour(pos, South)).trail ==> q.y <= pos.y + 1
  {
  }
}
