/** Reference semantics of the engine as functions on values: one step of the
    move resolution (`applyMove`), the scan of a whole move with its game-over
    test (`move`), the commit at the end of an animation (`Update`), spawning
    and resetting (`Spawn`, `Reset`) and the input gate (`OnEvent`). The class
    in module Tw is proved to compute exactly these. */
module Rules {
  import opened Grid

  /** A merge that produces this exponent resets the live board. */
  const ResetExponent: nat := 12

  /** One tile's slide for the current animation: `((from, to), value)`. */
  datatype Motion = Motion(from: Pos, to: Pos, value: nat)

  /** The engine's state: the live board (`map`), the scratch board
      (`tempMap`), the pending records (`moves`), `animState`, the clock
      reading at the last `animClock.restart()`, and how many numbers the
      random source has handed out so far. */
  datatype State = State(board: Board, temp: Board, moves: seq<Motion>,
                         animating: bool, animStart: int, draws: nat)

  predicate MotionInBounds(m: Motion) {
    InBounds(m.from) && InBounds(m.to)
  }

  /** Every record of the queue stays on the board. */
  predicate AllInBounds(ms: seq<Motion>) {
    forall i :: 0 <= i < |ms| ==> MotionInBounds(ms[i])
  }

  /** Every record stays on the board, and records are pending only while the
      animation runs. */
  predicate ValidState(s: State) {
    AllInBounds(s.moves) &&
    (!s.animating ==> s.moves == [])
  }

  // ---------------------------------------------------------------------------
  // Spawn and Reset. `rand` is the sequence of numbers `rand()` returns;
  // `draws` is how many have been used.

  /** Spawn on a board with room: the empty cell `available[rand() % count]`
      receives 1 when the next `rand() % 10 < 9`, else 2. */
  function Place(g: Board, rand: nat -> nat, draws: nat): (Board, nat)
    requires EmptyCells(g) != []
  {
    var cells := EmptyCells(g);
    var p := cells[rand(draws) % |cells|];
    EmptyCellsSpec(g, p);
    var v := if rand(draws + 1) % 10 < 9 then 1 else 2;
    (Put(g, p, v), draws + 2)
  }

  /** Reset: clear every cell, then spawn. On the cleared board every cell is
      empty, listed in increasing offset, so the spawn lands on offset
      `rand() % (W * H)`; ResetIsSpawnOnCleared proves the two agree. */
  function ResetBoard(rand: nat -> nat, draws: nat): (Board, nat) {
    var v := if rand(draws + 1) % 10 < 9 then 1 else 2;
    (Put(EmptyBoard(), PosOf(rand(draws) % Size), v), draws + 2)
  }

  /** Spawn: place a tile, or reset when no cell is empty. */
  function Spawned(g: Board, rand: nat -> nat, draws: nat): (Board, nat) {
    if EmptyCells(g) == [] then ResetBoard(rand, draws) else Place(g, rand, draws)
  }

  /** With an empty cell, Spawn writes 1 or 2 into exactly one empty cell and
      changes nothing else; on a full board it behaves as Reset. */
  lemma SpawnSpec(g: Board, rand: nat -> nat, draws: nat)
    ensures Spawned(g, rand, draws).1 == draws + 2
    ensures !Full(g) ==>
      var r := Spawned(g, rand, draws).0;
      exists p :: InBounds(p) && At(g, p) == 0 && (At(r, p) == 1 || At(r, p) == 2) &&
        forall q :: InBounds(q) && q != p ==> At(r, q) == At(g, q)
    ensures Full(g) ==> Spawned(g, rand, draws) == ResetBoard(rand, draws)
  {
    FullIffNoEmptyCells(g);
    if !Full(g) {
      var cells := EmptyCells(g);
      var p := cells[rand(draws) % |cells|];
      EmptyCellsSpec(g, p);
      var r := Spawned(g, rand, draws).0;
      PutFrame(g, p, if rand(draws + 1) % 10 < 9 then 1 else 2);
      assert InBounds(p) && At(g, p) == 0 && (At(r, p) == 1 || At(r, p) == 2);
    }
  }

  /** The cleared board lists its cells in increasing offset. */
  lemma {:induction false} EmptyPrefixOfCleared(n: nat)
    requires n <= Size
    ensures |EmptyPrefix(EmptyBoard(), n)| == n
    ensures forall i :: 0 <= i < n ==> EmptyPrefix(EmptyBoard(), n)[i] == PosOf(i)
  {
    if n > 0 {
      EmptyPrefixOfCleared(n - 1);
    }
  }

  /** Reset is Spawn on the cleared board. */
  lemma ResetIsSpawnOnCleared(rand: nat -> nat, draws: nat)
    ensures EmptyCells(EmptyBoard()) != []
    ensures ResetBoard(rand, draws) == Place(EmptyBoard(), rand, draws)
  {
    EmptyPrefixOfCleared(Size);
  }

  /** After Reset exactly one cell is occupied, and it holds 1 or 2. */
  lemma ResetLeavesOneTile(rand: nat -> nat, draws: nat)
    ensures ResetBoard(rand, draws).1 == draws + 2
    ensures var r := ResetBoard(rand, draws).0;
      exists p :: InBounds(p) && (At(r, p) == 1 || At(r, p) == 2) &&
        forall q :: InBounds(q) && q != p ==> At(r, q) == 0
  {
    var p := PosOf(rand(draws) % Size);
    PutFrame(EmptyBoard(), p, if rand(draws + 1) % 10 < 9 then 1 else 2);
  }

  // ---------------------------------------------------------------------------
  // applyMove: the tile at f, whose target is t.

  /** Where the tile from f stops: on t when it merges with t or t is empty,
      else one cell back from t (`t - d * (destVal != 0)`). */
  function Landing(g: Board, f: Pos, t: Pos, d: Dir): (to: Pos)
    requires InBounds(f) && InBounds(t) && Ahead(f, t, d)
    ensures InBounds(to) && (to == f || Ahead(f, to, d))
    ensures to == t || to == Back(t, d)
  {
    BoundsByDepth(f, d);
    BoundsByDepth(t, d);
    BoundsByDepth(Back(t, d), d);
    if At(g, t) == At(g, f) then t else if At(g, t) != 0 then Back(t, d) else t
  }

  /** Game.cpp:329-357: one tile at f, whose target is t, resolved on the
      scratch board; when it moves, the live board loses it, a record is
      queued and the clock restarts. */
  function Applied(s: State, f: Pos, t: Pos, d: Dir, now: int, rand: nat -> nat): State
    requires InBounds(f) && InBounds(t) && Ahead(f, t, d) && At(s.temp, f) != 0
  {
    var src := At(s.temp, f);
    var dst := At(s.temp, t);
    var to := Landing(s.temp, f, t, d);
    var temp := Put(Put(s.temp, f, 0), to, if dst == src then src + 1 else src);
    var (board, draws) :=
      if dst == src && src + 1 == ResetExponent then ResetBoard(rand, s.draws) else (s.board, s.draws);
    if f != to then
      State(Put(board, f, 0), temp, s.moves + [Motion(f, to, src)], true, now, draws)
    else
      State(board, temp, s.moves, s.animating, s.animStart, draws)
  }

  /** The scratch board follows the slide/merge/stop rule; a record is queued,
      the source cleared on the live board and the clock restarted exactly when
      the tile moves; a merge reaching ResetExponent resets the live board
      first. */
  lemma AppliedSpec(s: State, f: Pos, t: Pos, d: Dir, now: int, rand: nat -> nat)
    requires InBounds(f) && InBounds(t) && Ahead(f, t, d) && At(s.temp, f) != 0
    ensures var r, src, dst, to := Applied(s, f, t, d, now, rand), At(s.temp, f), At(s.temp, t), Landing(s.temp, f, t, d);
      (dst == src ==> to == t && At(r.temp, t) == src + 1 && At(r.temp, f) == 0) &&
      (dst == 0 ==> to == t && At(r.temp, t) == src && At(r.temp, f) == 0) &&
      (dst != 0 && dst != src ==>
         to == Back(t, d) && At(r.temp, to) == src && (to != f ==> At(r.temp, f) == 0)) &&
      (forall c :: InBounds(c) && c != f && c != to ==> At(r.temp, c) == At(s.temp, c))
    ensures var r, src, to := Applied(s, f, t, d, now, rand), At(s.temp, f), Landing(s.temp, f, t, d);
      (to != f ==>
         r.moves == s.moves + [Motion(f, to, src)] && r.animating && r.animStart == now &&
         At(r.board, f) == 0) &&
      (to == f ==>
         r.moves == s.moves && r.animating == s.animating && r.animStart == s.animStart &&
         r.board == s.board && r.draws == s.draws)
    ensures var r, src, dst, to := Applied(s, f, t, d, now, rand), At(s.temp, f), At(s.temp, t), Landing(s.temp, f, t, d);
      if dst == src && src + 1 == ResetExponent then
        r.board == Put(ResetBoard(rand, s.draws).0, f, 0) && r.draws == s.draws + 2
      else
        r.draws == s.draws && r.board == (if to != f then Put(s.board, f, 0) else s.board)
  {
    BoundsByDepth(f, d);
    BoundsByDepth(t, d);
    BoundsByDepth(Back(t, d), d);
    var src, dst := At(s.temp, f), At(s.temp, t);
    var to := Landing(s.temp, f, t, d);
    PutFrame(s.temp, f, 0);
    PutFrame(Put(s.temp, f, 0), to, if dst == src then src + 1 else src);
    ResetLeavesOneTile(rand, s.draws);
  }

  /** The scratch board after applyMove, as two writes: the source cleared,
      then the landing cell given the tile (merged or not). */
  lemma AppliedScratch(s: State, f: Pos, t: Pos, d: Dir, now: int, rand: nat -> nat)
    requires InBounds(f) && InBounds(t) && Ahead(f, t, d) && At(s.temp, f) != 0
    ensures var src, dst := At(s.temp, f), At(s.temp, t);
      Applied(s, f, t, d, now, rand).temp ==
        Put(Put(s.temp, f, 0), Landing(s.temp, f, t, d), if dst == src then src + 1 else src)
  {
  }

  // ---------------------------------------------------------------------------
  // move: the scan. Depth i of lane j is visited as the source cell
  // Source(d, i, j); depths run 1 .. Lines(d) - 1 (outer loop), lanes
  // 0 .. Lanes(d) - 1 (inner loop), as in each of the four branches of move.

  /** One source cell: skipped when empty, else moved to its target. */
  function StepAt(s: State, p: Pos, d: Dir, now: int, rand: nat -> nat): State
    requires InBounds(p) && Depth(p, d) >= 1
  {
    if At(s.temp, p) == 0 then s
    else Applied(s, p, Target(s.temp, p, d), d, now, rand)
  }

  /** Lanes 0 .. j - 1 at the given depth. */
  function ScanLane(s: State, d: Dir, depth: int, j: nat, now: int, rand: nat -> nat): State
    requires 1 <= depth < Lines(d) && j <= Lanes(d)
  {
    if j == 0 then s
    else
      var p := Source(d, depth, j - 1);
      BoundsByDepth(p, d);
      StepAt(ScanLane(s, d, depth, j - 1, now, rand), p, d, now, rand)
  }

  /** The scan at a depth visits lane j after lanes 0 .. j - 1. */
  lemma ScanLaneNext(s: State, d: Dir, depth: int, j: nat, now: int, rand: nat -> nat)
    requires 1 <= depth < Lines(d) && j < Lanes(d)
    ensures ScanLane(s, d, depth, j + 1, now, rand) ==
      StepAt(ScanLane(s, d, depth, j, now, rand), Source(d, depth, j), d, now, rand)
  {
    BoundsByDepth(Source(d, depth, j), d);
  }

  /** Depths 1 .. i - 1, every lane. */
  function ScanLines(s: State, d: Dir, i: nat, now: int, rand: nat -> nat): State
    requires 1 <= i <= Lines(d)
  {
    if i == 1 then s
    else ScanLane(ScanLines(s, d, i - 1, now, rand), d, i - 1, Lanes(d), now, rand)
  }

  /** Game.cpp:215-327: copy the live board into the scratch board, scan, and
      reset when the scratch board ends full with no equal neighbours. */
  ghost function Moved(s: State, d: Dir, now: int, rand: nat -> nat): State {
    var scanned := ScanLines(s.(temp := s.board), d, Lines(d), now, rand);
    if Stuck(scanned.temp) then
      var (b, n) := ResetBoard(rand, scanned.draws);
      scanned.(board := b, draws := n)
    else scanned
  }

  // ---------------------------------------------------------------------------
  // Update: the end of the animation.

  /** One record written back (Game.cpp:46-57): the destination's value is
      read first, then the source is cleared and the destination receives the
      merged value when it held the record's value, else the record's value. */
  function CommitOne(b: Board, m: Motion): Board
    requires MotionInBounds(m)
  {
    var dst := At(b, m.to);
    var cleared := Put(b, m.from, 0);
    Put(cleared, m.to, if m.value == dst && m.from != m.to then m.value + 1 else m.value)
  }

  /** The records written back in order. */
  function Committed(b: Board, ms: seq<Motion>): Board
    requires AllInBounds(ms)
    decreases |ms|
  {
    if ms == [] then b
    else
      CommitOne(Committed(b, ms[..|ms| - 1]), ms[|ms| - 1])
  }

  /** Game.cpp:39-69; `elapsed` is the clock test against ANIMATION_DURATION. */
  function Updated(s: State, elapsed: bool, rand: nat -> nat): State
    requires ValidState(s)
  {
    if s.animating && elapsed then
      var (b, n) := Spawned(Committed(s.board, s.moves), rand, s.draws);
      State(b, s.temp, [], false, s.animStart, n)
    else s
  }

  // ---------------------------------------------------------------------------
  // OnEvent: key presses, already mapped to the four directions.

  datatype Event = DirectionKey(dir: Dir) | OtherKey | OtherEvent

  ghost function Handled(s: State, e: Event, now: int, rand: nat -> nat): State {
    if e.DirectionKey? && !s.animating then Moved(s, e.dir, now, rand) else s
  }
}
