/** Properties of a whole move, proved on the reference semantics of module
    Rules: the scan never creates or destroys value, never adds tiles, leaves
    a stuck board as it is (so the game-over reset fires exactly on stuck
    boards), and queues records that, written back by Update, reproduce the
    scratch board. */
module Properties {
  import opened Grid
  import opened Rules

  // ---------------------------------------------------------------------------
  // Induction along the scan: a property of a state and a position in the
  // scan that every step keeps holds at the end of a lane, and of all lines.

  lemma {:induction false} ScanLaneInduction(s: State, d: Dir, depth: int, j: nat, now: int, rand: nat -> nat,
                                             inv: (State, nat) -> bool)
    requires 1 <= depth < Lines(d) && j <= Lanes(d)
    requires inv(s, 0)
    requires forall x: State, k: nat :: k < Lanes(d) && inv(x, k) ==>
      inv(StepAt(x, Source(d, depth, k), d, now, rand), k + 1)
    ensures inv(ScanLane(s, d, depth, j, now, rand), j)
    decreases j
  {
    if j > 0 {
      ScanLaneInduction(s, d, depth, j - 1, now, rand, inv);
      ScanLaneNext(s, d, depth, j - 1, now, rand);
    }
  }

  lemma {:induction false} ScanLinesInduction(s: State, d: Dir, i: nat, now: int, rand: nat -> nat,
                                              inv: (State, nat) -> bool)
    requires 1 <= i <= Lines(d)
    requires inv(s, 1)
    requires forall x: State, k: nat :: 1 <= k < Lines(d) && inv(x, k) ==>
      inv(ScanLane(x, d, k, Lanes(d), now, rand), k + 1)
    ensures inv(ScanLines(s, d, i, now, rand), i)
    decreases i
  {
    if i > 1 {
      ScanLinesInduction(s, d, i - 1, now, rand, inv);
    }
  }

  // ---------------------------------------------------------------------------
  // The random source: a step draws nothing, or two numbers when it resets.

  lemma StepDraws(s: State, p: Pos, d: Dir, now: int, rand: nat -> nat)
    requires InBounds(p) && Depth(p, d) >= 1
    ensures StepAt(s, p, d, now, rand).draws >= s.draws
  {
    if At(s.temp, p) != 0 {
      TargetSpec(s.temp, p, d);
      AppliedSpec(s, p, Target(s.temp, p, d), d, now, rand);
    }
  }

  lemma ScanLaneDraws(s: State, d: Dir, depth: int, j: nat, now: int, rand: nat -> nat)
    requires 1 <= depth < Lines(d) && j <= Lanes(d)
    ensures ScanLane(s, d, depth, j, now, rand).draws >= s.draws
  {
    var inv := (x: State, k: nat) => x.draws >= s.draws;
    forall x: State, k: nat | k < Lanes(d) && inv(x, k)
      ensures inv(StepAt(x, Source(d, depth, k), d, now, rand), k + 1)
    {
      StepDraws(x, Source(d, depth, k), d, now, rand);
    }
    ScanLaneInduction(s, d, depth, j, now, rand, inv);
  }

  lemma ScanLinesDraws(s: State, d: Dir, i: nat, now: int, rand: nat -> nat)
    requires 1 <= i <= Lines(d)
    ensures ScanLines(s, d, i, now, rand).draws >= s.draws
  {
    var inv := (x: State, k: nat) => x.draws >= s.draws;
    forall x: State, k: nat | 1 <= k < Lines(d) && inv(x, k)
      ensures inv(ScanLane(x, d, k, Lanes(d), now, rand), k + 1)
    {
      ScanLaneDraws(x, d, k, Lanes(d), now, rand);
    }
    ScanLinesInduction(s, d, i, now, rand, inv);
  }

  // ---------------------------------------------------------------------------
  // Value and tile count of the scratch board.

  /** applyMove keeps the total of the scratch board, given that the cells
      between source and target are empty (as the target search ensures): a
      merge turns two tiles 2^k into one 2^(k+1), a slide moves one tile. */
  lemma AppliedTotal(s: State, f: Pos, t: Pos, d: Dir, now: int, rand: nat -> nat)
    requires InBounds(f) && InBounds(t) && Ahead(f, t, d) && At(s.temp, f) != 0
    requires forall c :: InBounds(c) && Ahead(f, c, d) && Ahead(c, t, d) ==> At(s.temp, c) == 0
    ensures Total(Applied(s, f, t, d, now, rand).temp) == Total(s.temp)
  {
    var src, dst := At(s.temp, f), At(s.temp, t);
    var to := Landing(s.temp, f, t, d);
    AppliedScratch(s, f, t, d, now, rand);
    TotalPut(s.temp, f, 0);
    PutFrame(s.temp, f, 0);
    TotalPut(Put(s.temp, f, 0), to, if dst == src then src + 1 else src);
    if to != f && to != t {
      BoundsByDepth(t, d);
      assert Ahead(f, to, d) && Ahead(to, t, d);
    }
  }

  lemma StepTotal(s: State, p: Pos, d: Dir, now: int, rand: nat -> nat)
    requires InBounds(p) && Depth(p, d) >= 1
    ensures Total(StepAt(s, p, d, now, rand).temp) == Total(s.temp)
  {
    if At(s.temp, p) != 0 {
      TargetSpec(s.temp, p, d);
      AppliedTotal(s, p, Target(s.temp, p, d), d, now, rand);
    }
  }

  lemma ScanLaneTotal(s: State, d: Dir, depth: int, j: nat, now: int, rand: nat -> nat)
    requires 1 <= depth < Lines(d) && j <= Lanes(d)
    ensures Total(ScanLane(s, d, depth, j, now, rand).temp) == Total(s.temp)
  {
    var inv := (x: State, k: nat) => Total(x.temp) == Total(s.temp);
    forall x: State, k: nat | k < Lanes(d) && inv(x, k)
      ensures inv(StepAt(x, Source(d, depth, k), d, now, rand), k + 1)
    {
      StepTotal(x, Source(d, depth, k), d, now, rand);
    }
    ScanLaneInduction(s, d, depth, j, now, rand, inv);
  }

  lemma ScanLinesTotal(s: State, d: Dir, i: nat, now: int, rand: nat -> nat)
    requires 1 <= i <= Lines(d)
    ensures Total(ScanLines(s, d, i, now, rand).temp) == Total(s.temp)
  {
    var inv := (x: State, k: nat) => Total(x.temp) == Total(s.temp);
    forall x: State, k: nat | 1 <= k < Lines(d) && inv(x, k)
      ensures inv(ScanLane(x, d, k, Lanes(d), now, rand), k + 1)
    {
      ScanLaneTotal(x, d, k, Lanes(d), now, rand);
    }
    ScanLinesInduction(s, d, i, now, rand, inv);
  }

  /** After a move the scratch board holds exactly the value the live board
      held before it: sliding and merging neither create nor destroy value. */
  lemma MoveConservesValue(s: State, d: Dir, now: int, rand: nat -> nat)
    ensures Total(Moved(s, d, now, rand).temp) == Total(s.board)
  {
    ScanLinesTotal(s.(temp := s.board), d, Lines(d), now, rand);
  }

  // ---------------------------------------------------------------------------
  // Tile count, and the game-over test.

  /** applyMove removes exactly one tile from the scratch board when it
      merges and keeps the count otherwise; on a full scratch board a tile
      that does not merge changes nothing at all. */
  lemma AppliedTiles(s: State, f: Pos, t: Pos, d: Dir, now: int, rand: nat -> nat)
    requires InBounds(f) && InBounds(t) && Ahead(f, t, d) && At(s.temp, f) != 0
    requires forall c :: InBounds(c) && Ahead(f, c, d) && Ahead(c, t, d) ==> At(s.temp, c) == 0
    ensures Tiles(Applied(s, f, t, d, now, rand).temp) + (if At(s.temp, t) == At(s.temp, f) then 1 else 0) ==
      Tiles(s.temp)
    ensures var r := Applied(s, f, t, d, now, rand);
      Tiles(r.temp) <= Tiles(s.temp) &&
      (Full(s.temp) ==> r == s || Tiles(r.temp) < Tiles(s.temp))
  {
    var src, dst := At(s.temp, f), At(s.temp, t);
    var to := Landing(s.temp, f, t, d);
    AppliedScratch(s, f, t, d, now, rand);
    TilesPut(s.temp, f, 0);
    PutFrame(s.temp, f, 0);
    TilesPut(Put(s.temp, f, 0), to, if dst == src then src + 1 else src);
    if to != f && to != t {
      BoundsByDepth(t, d);
      assert Ahead(f, to, d) && Ahead(to, t, d);
    }
    if Full(s.temp) && dst != src {
      assert to == f;
      PutTwice(s.temp, f, 0, src);
      PutSame(s.temp, f);
    }
  }

  lemma StepTiles(s: State, p: Pos, d: Dir, now: int, rand: nat -> nat)
    requires InBounds(p) && Depth(p, d) >= 1
    ensures var r := StepAt(s, p, d, now, rand);
      Tiles(r.temp) <= Tiles(s.temp) &&
      (Full(s.temp) ==> r == s || Tiles(r.temp) < Tiles(s.temp))
  {
    if At(s.temp, p) != 0 {
      TargetSpec(s.temp, p, d);
      AppliedTiles(s, p, Target(s.temp, p, d), d, now, rand);
    }
  }

  lemma ScanLaneTiles(s: State, d: Dir, depth: int, j: nat, now: int, rand: nat -> nat)
    requires 1 <= depth < Lines(d) && j <= Lanes(d)
    ensures var r := ScanLane(s, d, depth, j, now, rand);
      Tiles(r.temp) <= Tiles(s.temp) &&
      (Full(s.temp) ==> r == s || Tiles(r.temp) < Tiles(s.temp))
  {
    var inv := (x: State, k: nat) =>
      Tiles(x.temp) <= Tiles(s.temp) && (Full(s.temp) ==> x == s || Tiles(x.temp) < Tiles(s.temp));
    forall x: State, k: nat | k < Lanes(d) && inv(x, k)
      ensures inv(StepAt(x, Source(d, depth, k), d, now, rand), k + 1)
    {
      StepTiles(x, Source(d, depth, k), d, now, rand);
    }
    ScanLaneInduction(s, d, depth, j, now, rand, inv);
  }

  lemma ScanLinesTiles(s: State, d: Dir, i: nat, now: int, rand: nat -> nat)
    requires 1 <= i <= Lines(d)
    ensures var r := ScanLines(s, d, i, now, rand);
      Tiles(r.temp) <= Tiles(s.temp) &&
      (Full(s.temp) ==> r == s || Tiles(r.temp) < Tiles(s.temp))
  {
    var inv := (x: State, k: nat) =>
      Tiles(x.temp) <= Tiles(s.temp) && (Full(s.temp) ==> x == s || Tiles(x.temp) < Tiles(s.temp));
    forall x: State, k: nat | 1 <= k < Lines(d) && inv(x, k)
      ensures inv(ScanLane(x, d, k, Lanes(d), now, rand), k + 1)
    {
      ScanLaneTiles(x, d, k, Lanes(d), now, rand);
    }
    ScanLinesInduction(s, d, i, now, rand, inv);
  }

  /** On a stuck scratch board every tile's target is its occupied, different
      neighbour, so it stays where it is and nothing changes. */
  lemma StuckStep(s: State, p: Pos, d: Dir, now: int, rand: nat -> nat)
    requires Stuck(s.temp) && InBounds(p) && Depth(p, d) >= 1
    ensures StepAt(s, p, d, now, rand) == s
  {
    BoundsByDepth(p, d);
    var q := Step(p, d);
    BoundsByDepth(q, d);
    StuckNeighbour(s.temp, p, d);
    assert Settled(s.temp, p);
    assert Target(s.temp, p, d) == q;
    AppliedScratch(s, p, q, d, now, rand);
    PutTwice(s.temp, p, 0, At(s.temp, p));
    PutSame(s.temp, p);
  }

  lemma ScanLaneStuck(s: State, d: Dir, depth: int, j: nat, now: int, rand: nat -> nat)
    requires Stuck(s.temp) && 1 <= depth < Lines(d) && j <= Lanes(d)
    ensures ScanLane(s, d, depth, j, now, rand) == s
  {
    var inv := (x: State, k: nat) => x == s;
    forall x: State, k: nat | k < Lanes(d) && inv(x, k)
      ensures inv(StepAt(x, Source(d, depth, k), d, now, rand), k + 1)
    {
      StuckStep(x, Source(d, depth, k), d, now, rand);
    }
    ScanLaneInduction(s, d, depth, j, now, rand, inv);
  }

  lemma ScanLinesStuck(s: State, d: Dir, i: nat, now: int, rand: nat -> nat)
    requires Stuck(s.temp) && 1 <= i <= Lines(d)
    ensures ScanLines(s, d, i, now, rand) == s
  {
    var inv := (x: State, k: nat) => x == s;
    forall x: State, k: nat | 1 <= k < Lines(d) && inv(x, k)
      ensures inv(ScanLane(x, d, k, Lanes(d), now, rand), k + 1)
    {
      ScanLaneStuck(x, d, k, Lanes(d), now, rand);
    }
    ScanLinesInduction(s, d, i, now, rand, inv);
  }

  /** The game-over test of `move` fires exactly on boards that were stuck
      before the move. On a stuck board no tile moves, no record is queued,
      the clock is not restarted, and the live board is reset; on any other
      board the move is the scan alone. */
  lemma MoveGameOver(s: State, d: Dir, now: int, rand: nat -> nat)
    ensures Stuck(s.board) ==>
      Moved(s, d, now, rand) ==
        s.(temp := s.board, board := ResetBoard(rand, s.draws).0, draws := s.draws + 2)
    ensures !Stuck(s.board) ==>
      Moved(s, d, now, rand) == ScanLines(s.(temp := s.board), d, Lines(d), now, rand)
  {
    var s0 := s.(temp := s.board);
    var scanned := ScanLines(s0, d, Lines(d), now, rand);
    if Stuck(s.board) {
      ScanLinesStuck(s0, d, Lines(d), now, rand);
    } else {
      ScanLinesTiles(s0, d, Lines(d), now, rand);
      FullIffAllTiles(s.board);
      FullIffAllTiles(scanned.temp);
      TilesBound(s.board);
      if Stuck(scanned.temp) {
        StuckIsFull(scanned.temp);
        assert false;
      }
    }
  }

  /** No merge lock: a tile produced by a merge merges again later in the same
      move. In the row 2, 2, 4 moved left, the second 2 merges into the first,
      and the 4 then slides onto the fresh 4 and merges with it. */
  lemma MergedTileMergesAgain(s: State, now: int, rand: nat -> nat)
    requires At(s.temp, Pos(0, 0)) == 1 && At(s.temp, Pos(1, 0)) == 1 && At(s.temp, Pos(2, 0)) == 2
    ensures var s1 := StepAt(s, Pos(1, 0), Left, now, rand);
      var s2 := StepAt(s1, Pos(2, 0), Left, now, rand);
      At(s1.temp, Pos(0, 0)) == 2 &&
      At(s2.temp, Pos(0, 0)) == 3 && At(s2.temp, Pos(1, 0)) == 0 && At(s2.temp, Pos(2, 0)) == 0
  {
    var s1 := StepAt(s, Pos(1, 0), Left, now, rand);
    assert Target(s.temp, Pos(1, 0), Left) == Pos(0, 0);
    AppliedSpec(s, Pos(1, 0), Pos(0, 0), Left, now, rand);
    assert Target(s1.temp, Pos(2, 0), Left) == Pos(0, 0) by {
      TargetNext(s1.temp, Pos(2, 0), Left);
      TargetNext(s1.temp, Pos(1, 0), Left);
    }
    AppliedSpec(s1, Pos(2, 0), Pos(0, 0), Left, now, rand);
  }

  /** A reset during a move keeps the queued records, so the tile 4096
      (exponent 12), which the label table cannot show, can reach the live
      board. Row 0, 2048, 2048 moved left: the first 2048 slides onto the
      empty wall cell and queues its record, the second merges into it and
      resets the live board; when the animation ends, the two records are
      written back onto the reset board and the second one merges onto the
      first. */
  lemma ResetKeepsRecords(s: State, now: int, rand: nat -> nat)
    requires s.moves == [Motion(Pos(1, 0), Pos(0, 0), 11)]
    requires At(s.temp, Pos(0, 0)) == 11 && At(s.temp, Pos(1, 0)) == 0 && At(s.temp, Pos(2, 0)) == 11
    ensures var r := Applied(s, Pos(2, 0), Pos(0, 0), Left, now, rand);
      r.board == Put(ResetBoard(rand, s.draws).0, Pos(2, 0), 0) &&
      r.moves == s.moves + [Motion(Pos(2, 0), Pos(0, 0), 11)] &&
      At(Updated(r, true, rand).board, Pos(0, 0)) == 12
  {
    var f, t := Pos(2, 0), Pos(0, 0);
    var r := Applied(s, f, t, Left, now, rand);
    AppliedSpec(s, f, t, Left, now, rand);
    ResetLeavesOneTile(rand, s.draws);
    var b1 := CommitOne(r.board, r.moves[0]);
    assert At(b1, t) == 11 && At(b1, Pos(1, 0)) == 0;
    CommittedSnoc(r.board, [r.moves[0]], r.moves[1]);
    assert r.moves == [r.moves[0]] + [r.moves[1]];
    var c := Committed(r.board, r.moves);
    assert c == CommitOne(b1, r.moves[1]);
    assert At(c, t) == 12;
    assert At(c, Pos(1, 0)) == 0;
    SpawnSpec(c, rand, r.draws);
  }

  // ---------------------------------------------------------------------------
  // The records of a move replay it: Update's write-back turns the live board
  // into the scratch board the move computed.

  /** Writing one record back commutes with a write to a cell the record does
      not touch. */
  lemma CommitOneFrame(b: Board, m: Motion, p: Pos, v: nat)
    requires MotionInBounds(m) && InBounds(p) && m.from != p && m.to != p
    ensures CommitOne(Put(b, p, v), m) == Put(CommitOne(b, m), p, v)
  {
    PutFrame(b, p, v);
    PutCommute(b, p, v, m.from, 0);
    var w := if m.value == At(b, m.to) && m.from != m.to then m.value + 1 else m.value;
    PutCommute(Put(b, m.from, 0), p, v, m.to, w);
  }

  /** No record of ms has p as its source or destination. */
  predicate Avoids(ms: seq<Motion>, p: Pos) {
    forall i :: 0 <= i < |ms| ==> ms[i].from != p && ms[i].to != p
  }

  lemma {:induction false} CommittedFrame(b: Board, ms: seq<Motion>, p: Pos, v: nat)
    requires InBounds(p) && AllInBounds(ms) && Avoids(ms, p)
    ensures Committed(Put(b, p, v), ms) == Put(Committed(b, ms), p, v)
    decreases |ms|
  {
    if ms != [] {
      var init := ms[..|ms| - 1];
      CommittedFrame(b, init, p, v);
      CommitOneFrame(Committed(b, init), ms[|ms| - 1], p, v);
    }
  }

  lemma CommittedSnoc(b: Board, ms: seq<Motion>, m: Motion)
    requires MotionInBounds(m) && AllInBounds(ms)
    ensures Committed(b, ms + [m]) == CommitOne(Committed(b, ms), m)
  {
    assert (ms + [m])[..|ms|] == ms;
  }

  /** e lies in the part of the board the scan has visited before it reaches
      depth `depth`, lane `lane`. */
  predicate Visited(e: Pos, d: Dir, depth: int, lane: int) {
    Depth(e, d) < depth || (Depth(e, d) == depth && Lane(e, d) < lane)
  }

  /** The scan invariant: every record lies in the visited part of the board;
      writing the records back onto the live board gives the scratch board;
      records are pending only while the animation runs; and with no record
      queued the live board is still b0, the board before the move. */
  predicate Replays(s: State, b0: Board, d: Dir, depth: int, lane: int) {
    AllInBounds(s.moves) &&
    (forall i :: 0 <= i < |s.moves| ==>
       Visited(s.moves[i].from, d, depth, lane) && Visited(s.moves[i].to, d, depth, lane)) &&
    Committed(s.board, s.moves) == s.temp &&
    (!s.animating ==> s.moves == []) &&
    (s.moves == [] ==> s.board == b0)
  }

  /** A tile that moves without a reset: its record, written back after the
      earlier ones, clears the source and reproduces the landing cell. */
  lemma AppliedCommit(s: State, f: Pos, t: Pos, d: Dir, now: int, rand: nat -> nat)
    requires InBounds(f) && InBounds(t) && Ahead(f, t, d) && At(s.temp, f) != 0
    requires forall c :: InBounds(c) && Ahead(f, c, d) && Ahead(c, t, d) ==> At(s.temp, c) == 0
    requires AllInBounds(s.moves) && Avoids(s.moves, f)
    requires Committed(s.board, s.moves) == s.temp
    requires Applied(s, f, t, d, now, rand).draws == s.draws
    ensures var r := Applied(s, f, t, d, now, rand);
      AllInBounds(r.moves)
    ensures var r := Applied(s, f, t, d, now, rand);
      Committed(r.board, r.moves) == r.temp
  {
    var r := Applied(s, f, t, d, now, rand);
    var src, dst := At(s.temp, f), At(s.temp, t);
    var to := Landing(s.temp, f, t, d);
    var w := if dst == src then src + 1 else src;
    AppliedSpec(s, f, t, d, now, rand);
    AppliedScratch(s, f, t, d, now, rand);
    PutFrame(s.temp, f, 0);
    if to == f {
      PutTwice(s.temp, f, 0, src);
      PutSame(s.temp, f);
    } else {
      var m := Motion(f, to, src);
      if to != t {
        BoundsByDepth(t, d);
        assert Ahead(f, to, d) && Ahead(to, t, d);
      }
      calc {
        Committed(r.board, r.moves);
        { CommittedSnoc(Put(s.board, f, 0), s.moves, m); }
        CommitOne(Committed(Put(s.board, f, 0), s.moves), m);
        { CommittedFrame(s.board, s.moves, f, 0); }
        CommitOne(Put(s.temp, f, 0), m);
        { PutTwice(s.temp, f, 0, 0); }
        Put(Put(s.temp, f, 0), to, w);
      }
    }
  }

  /** A record in the visited part of the board does not touch the cell the
      scan has reached. */
  lemma VisitedAvoids(ms: seq<Motion>, f: Pos, d: Dir)
    requires forall i :: 0 <= i < |ms| ==>
      Visited(ms[i].from, d, Depth(f, d), Lane(f, d)) && Visited(ms[i].to, d, Depth(f, d), Lane(f, d))
    ensures Avoids(ms, f)
  {
  }

  lemma AppliedReplays(s: State, b0: Board, f: Pos, t: Pos, d: Dir, now: int, rand: nat -> nat)
    requires InBounds(f) && InBounds(t) && Ahead(f, t, d) && At(s.temp, f) != 0
    requires forall c :: InBounds(c) && Ahead(f, c, d) && Ahead(c, t, d) ==> At(s.temp, c) == 0
    requires Replays(s, b0, d, Depth(f, d), Lane(f, d))
    requires Applied(s, f, t, d, now, rand).draws == s.draws
    ensures Replays(Applied(s, f, t, d, now, rand), b0, d, Depth(f, d), Lane(f, d) + 1)
  {
    AppliedSpec(s, f, t, d, now, rand);
    VisitedAvoids(s.moves, f, d);
    AppliedCommit(s, f, t, d, now, rand);
    AppliedVisited(s, f, t, d, now, rand);
  }

  /** The record applyMove queues, if any, lies in the visited part. */
  lemma AppliedVisited(s: State, f: Pos, t: Pos, d: Dir, now: int, rand: nat -> nat)
    requires InBounds(f) && InBounds(t) && Ahead(f, t, d) && At(s.temp, f) != 0
    requires forall i :: 0 <= i < |s.moves| ==>
      Visited(s.moves[i].from, d, Depth(f, d), Lane(f, d)) && Visited(s.moves[i].to, d, Depth(f, d), Lane(f, d))
    ensures var ms := Applied(s, f, t, d, now, rand).moves;
      forall i :: 0 <= i < |ms| ==>
        Visited(ms[i].from, d, Depth(f, d), Lane(f, d) + 1) && Visited(ms[i].to, d, Depth(f, d), Lane(f, d) + 1)
  {
    AppliedSpec(s, f, t, d, now, rand);
  }

  lemma StepReplays(s: State, b0: Board, d: Dir, depth: int, lane: int, now: int, rand: nat -> nat)
    requires 1 <= depth < Lines(d) && 0 <= lane < Lanes(d)
    requires Replays(s, b0, d, depth, lane)
    requires StepAt(s, Source(d, depth, lane), d, now, rand).draws == s.draws
    ensures Replays(StepAt(s, Source(d, depth, lane), d, now, rand), b0, d, depth, lane + 1)
  {
    var p := Source(d, depth, lane);
    if At(s.temp, p) != 0 {
      TargetSpec(s.temp, p, d);
      AppliedReplays(s, b0, p, Target(s.temp, p, d), d, now, rand);
    }
  }

  /** The invariant of the scan: either a reset has spent draws since the
      scan began, or the records replay onto b0 up to (depth, lane). */
  predicate ReplaysUnlessReset(x: State, draws0: nat, b0: Board, d: Dir, depth: int, lane: int) {
    x.draws >= draws0 && (x.draws == draws0 ==> Replays(x, b0, d, depth, lane))
  }

  lemma StepReplaysUnlessReset(x: State, draws0: nat, b0: Board, d: Dir, depth: int, k: nat, now: int, rand: nat -> nat)
    requires 1 <= depth < Lines(d) && k < Lanes(d)
    requires ReplaysUnlessReset(x, draws0, b0, d, depth, k)
    ensures ReplaysUnlessReset(StepAt(x, Source(d, depth, k), d, now, rand), draws0, b0, d, depth, k + 1)
  {
    StepDraws(x, Source(d, depth, k), d, now, rand);
    if StepAt(x, Source(d, depth, k), d, now, rand).draws == draws0 {
      StepReplays(x, b0, d, depth, k, now, rand);
    }
  }

  /** One more lane of the scan at a given depth keeps the invariant. */
  lemma ScanLaneReplays(s: State, b0: Board, d: Dir, depth: int, j: nat, now: int, rand: nat -> nat)
    requires 1 <= depth < Lines(d) && j <= Lanes(d)
    requires Replays(s, b0, d, depth, 0)
    requires ScanLane(s, d, depth, j, now, rand).draws == s.draws
    ensures Replays(ScanLane(s, d, depth, j, now, rand), b0, d, depth, j)
  {
    var inv := (x: State, k: nat) => ReplaysUnlessReset(x, s.draws, b0, d, depth, k);
    forall x: State, k: nat | k < Lanes(d) && inv(x, k)
      ensures inv(StepAt(x, Source(d, depth, k), d, now, rand), k + 1)
    {
      StepReplaysUnlessReset(x, s.draws, b0, d, depth, k, now, rand);
    }
    ScanLaneInduction(s, d, depth, j, now, rand, inv);
  }

  lemma ScanLinesReplays(s: State, b0: Board, d: Dir, i: nat, now: int, rand: nat -> nat)
    requires 1 <= i <= Lines(d)
    requires Replays(s, b0, d, 1, 0)
    requires ScanLines(s, d, i, now, rand).draws == s.draws
    ensures Replays(ScanLines(s, d, i, now, rand), b0, d, i, 0)
  {
    var inv := (x: State, k: nat) => ReplaysUnlessReset(x, s.draws, b0, d, k, 0);
    forall x: State, k: nat | 1 <= k < Lines(d) && inv(x, k)
      ensures inv(ScanLane(x, d, k, Lanes(d), now, rand), k + 1)
    {
      LaneReplaysUnlessReset(x, s.draws, b0, d, k, now, rand);
    }
    ScanLinesInduction(s, d, i, now, rand, inv);
  }

  lemma LaneReplaysUnlessReset(x: State, draws0: nat, b0: Board, d: Dir, k: int, now: int, rand: nat -> nat)
    requires 1 <= k < Lines(d)
    requires ReplaysUnlessReset(x, draws0, b0, d, k, 0)
    ensures ReplaysUnlessReset(ScanLane(x, d, k, Lanes(d), now, rand), draws0, b0, d, k + 1, 0)
  {
    var y := ScanLane(x, d, k, Lanes(d), now, rand);
    ScanLaneDraws(x, d, k, Lanes(d), now, rand);
    if y.draws == draws0 {
      ScanLaneReplays(x, b0, d, k, Lanes(d), now, rand);
      ReplaysNextDepth(y, b0, d, k);
    }
  }

  /** The part visited before lane Lanes(d) of depth k is the part visited
      before lane 0 of depth k + 1. */
  lemma ReplaysNextDepth(s: State, b0: Board, d: Dir, k: int)
    requires Replays(s, b0, d, k, Lanes(d))
    ensures Replays(s, b0, d, k + 1, 0)
  {
    forall i | 0 <= i < |s.moves|
      ensures Visited(s.moves[i].from, d, k + 1, 0) && Visited(s.moves[i].to, d, k + 1, 0)
    {
      BoundsByDepth(s.moves[i].from, d);
      BoundsByDepth(s.moves[i].to, d);
    }
  }

  /** A move that does not reset the live board (neither a merge reaching
      ResetExponent nor the game-over test, each of which draws from the
      random source) queues records that reproduce it: writing them back onto
      the live board gives the scratch board, so once its animation ends
      Update leaves the board the move computed, plus one spawned tile. A move
      that queues no record changes neither board. */
  lemma MoveThenUpdate(s: State, d: Dir, now: int, rand: nat -> nat)
    requires ValidState(s) && !s.animating
    requires Moved(s, d, now, rand).draws == s.draws
    ensures var m := Moved(s, d, now, rand);
      ValidState(m) && Committed(m.board, m.moves) == m.temp &&
      (m.animating ==> Updated(m, true, rand).board == Spawned(m.temp, rand, m.draws).0) &&
      (!m.animating ==> m.moves == [] && m.board == m.temp == s.board)
  {
    var s0 := s.(temp := s.board);
    ScanLinesDraws(s0, d, Lines(d), now, rand);
    ScanLinesReplays(s0, s.board, d, Lines(d), now, rand);
  }
}
