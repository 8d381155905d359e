/** The `tw::Game` class: the live and scratch boards as fixed arrays updated
    in place, the queue of motion records, the animation flag and clock. Each
    state-changing method is proved to compute the matching function of
    module Rules; the read-only scans are proved against the predicates of
    module Grid. */
module Tw {
  import opened Grid
  import opened Rules

  class Game {
    /** `char map[W][H]`, flattened as x * H + y. */
    const board: array<nat>
    /** `char tempMap[W][H]`, the scratch board of move resolution. */
    const tempBoard: array<nat>
    var moves: seq<Motion>
    var animState: bool
    /** Clock reading at the last `animClock.restart()`. */
    var animStart: int
    /** The numbers `rand()` returns, in order, and how many were used. */
    const rand: nat -> nat
    var draws: nat
    /** ANIMATION_DURATION, in the clock's units. */
    const duration: int

    ghost predicate Valid()
      reads this
    {
      board.Length == Size && tempBoard.Length == Size && board != tempBoard &&
      AllInBounds(moves) &&
      (!animState ==> moves == [])
    }

    ghost function Abstract(): (s: State)
      requires Valid()
      reads this, board, tempBoard
      ensures ValidState(s)
    {
      State(board[..], tempBoard[..], moves, animState, animStart, draws)
    }

    /** Game.cpp:8-18 without the font and the pixel layout: both boards start
        zeroed, no animation runs, and the board is reset. */
    constructor (rand: nat -> nat, duration: int, now: int)
      ensures Valid() && fresh(board) && fresh(tempBoard)
      ensures Abstract() == State(ResetBoard(rand, 0).0, EmptyBoard(), [], false, now, 2)
    {
      board := new nat[Size](i => 0);
      tempBoard := new nat[Size](i => 0);
      this.rand := rand;
      this.duration := duration;
      moves := [];
      animState := false;
      animStart := now;
      draws := 0;
      new;
      assert tempBoard[..] == EmptyBoard();
      Reset();
    }

    /** One call of `rand()`. */
    method Rand() returns (r: nat)
      modifies this`draws
      ensures r == rand(old(draws)) && draws == old(draws) + 1
    {
      r := rand(draws);
      draws := draws + 1;
    }

    /** The first half of Spawn (Game.cpp:129-139): the empty cells of the
        live board, in the order the nested loops meet them, in a buffer. */
    method AvailableCells() returns (availableMoves: array<Pos>, availableCount: nat)
      requires Valid()
      ensures fresh(availableMoves) && availableCount <= availableMoves.Length
      ensures availableMoves[..availableCount] == EmptyCells(board[..])
    {
      ghost var g := board[..];
      availableMoves := new Pos[Size](i => Pos(0, 0));
      availableCount := 0;
      var x := 0;
      while x < W
        invariant 0 <= x <= W
        invariant availableCount <= x * H
        invariant availableMoves[..availableCount] == EmptyPrefix(g, x * H)
        modifies availableMoves
      {
        var y := 0;
        while y < H
          invariant 0 <= y <= H
          invariant availableCount <= x * H + y
          invariant availableMoves[..availableCount] == EmptyPrefix(g, x * H + y)
          modifies availableMoves
        {
          ghost var n := x * H + y;
          assert PosOf(n) == Pos(x, y) by { IdxInjective(PosOf(n), Pos(x, y)); }
          if board[x * H + y] == 0 {
            ghost var before := availableMoves[..availableCount];
            availableMoves[availableCount] := Pos(x, y);
            assert availableMoves[..availableCount + 1] == before + [Pos(x, y)];
            availableCount := availableCount + 1;
          }
          assert EmptyPrefix(g, n + 1) == EmptyPrefix(g, n) + (if g[n] == 0 then [PosOf(n)] else []);
          y := y + 1;
        }
        x := x + 1;
      }
    }

    /** Game.cpp:127-150. */
    method Spawn()
      requires Valid()
      modifies this`draws, board
      ensures Valid()
      ensures (board[..], draws) == Spawned(old(board[..]), rand, old(draws))
      decreases if Full(board[..]) then 2 else 0
    {
      ghost var g := board[..];
      var availableMoves, availableCount := AvailableCells();
      ghost var cells := EmptyCells(g);
      if availableCount == 0 {
        FullIffNoEmptyCells(g);
        Reset();
        return;
      }
      var pick := Rand();
      var newPos := availableMoves[pick % availableCount];
      assert newPos == cells[rand(old(draws)) % |cells|];
      EmptyCellsSpec(g, newPos);
      var roll := Rand();
      var newTileID := if roll % 10 < 9 then 1 else 2;
      board[Idx(newPos)] := newTileID;
      assert board[..] == Put(g, newPos, newTileID);
    }

    /** Game.cpp:152-158. */
    method Reset()
      requires Valid()
      modifies this`draws, board
      ensures Valid()
      ensures (board[..], draws) == ResetBoard(rand, old(draws))
      decreases 1
    {
      var x := 0;
      while x < W
        invariant 0 <= x <= W
        invariant forall i :: 0 <= i < x * H ==> board[i] == 0
        modifies board
      {
        var y := 0;
        while y < H
          invariant 0 <= y <= H
          invariant forall i :: 0 <= i < x * H + y ==> board[i] == 0
          modifies board
        {
          board[x * H + y] := 0;
          y := y + 1;
        }
        x := x + 1;
      }
      assert board[..] == EmptyBoard();
      ResetIsSpawnOnCleared(rand, draws);
      Spawn();
    }

    /** The search of Game.cpp:228-235 (and its three mirror images): step from
        p toward the wall, keeping each cell visited, until a cell is occupied or
        the wall is passed. */
    method FindTarget(p: Pos, d: Dir) returns (finalPos: Pos)
      requires Valid() && InBounds(p) && Depth(p, d) >= 1
      ensures finalPos == Target(tempBoard[..], p, d)
    {
      ghost var g := tempBoard[..];
      BoundsByDepth(p, d);
      finalPos := p;
      var m := Step(p, d);
      while InBounds(m)
        invariant InBounds(finalPos) && m == Step(finalPos, d) && Depth(m, d) >= -1
        invariant InBounds(m) ==> Depth(finalPos, d) >= 1 && Target(g, p, d) == Target(g, finalPos, d)
        invariant !InBounds(m) ==> finalPos == Target(g, p, d)
        decreases Depth(m, d) + 1
      {
        BoundsByDepth(m, d);
        BoundsByDepth(finalPos, d);
        TargetNext(g, finalPos, d);
        finalPos := m;
        if tempBoard[Idx(m)] != 0 {
          break;
        }
        m := Step(m, d);
        BoundsByDepth(m, d);
      }
    }

    /** The game-over loop of Game.cpp:299-323. */
    method IsGameOver() returns (isGameOver: bool)
      requires Valid()
      ensures isGameOver == Stuck(tempBoard[..])
    {
      ghost var g := tempBoard[..];
      var isFilled := true;
      isGameOver := true;
      var x := 0;
      while x < W
        invariant 0 <= x <= W
        invariant isFilled && isGameOver
        invariant forall p {:trigger Settled(g, p)} :: InBounds(p) && p.x < x ==> Settled(g, p)
      {
        var y := 0;
        while y < H
          invariant 0 <= y <= H
          invariant isFilled
          invariant isGameOver ==> forall p {:trigger Settled(g, p)} ::
            InBounds(p) && (p.x < x || (p.x == x && p.y < y)) ==> Settled(g, p)
          invariant !isGameOver ==> !Stuck(g)
        {
          var p := Pos(x, y);
          if tempBoard[Idx(p)] == 0 {
            assert !Settled(g, p);
            isFilled := false;
            isGameOver := false;
            break;
          }
          var val := tempBoard[Idx(p)];
          if x != 0 && tempBoard[Idx(Pos(x - 1, y))] == val {
            assert !Settled(g, p);
            isGameOver := false;
          } else if y != 0 && tempBoard[Idx(Pos(x, y - 1))] == val {
            assert !Settled(g, p);
            isGameOver := false;
          } else if x != W - 1 && tempBoard[Idx(Pos(x + 1, y))] == val {
            assert !Settled(g, p);
            isGameOver := false;
          } else if y != H - 1 && tempBoard[Idx(Pos(x, y + 1))] == val {
            assert !Settled(g, p);
            isGameOver := false;
          }
          y := y + 1;
        }
        if !isFilled || !isGameOver {
          break;
        }
        x := x + 1;
      }
    }

    /** The scratch-board half of applyMove (Game.cpp:331-348): the source
        is cleared and its value, merged or not, lands next to or on the target;
        a merge that reaches ResetExponent resets the live board. */
    method LandOnScratch(f: Pos, t: Pos, d: Dir) returns (srcVal: nat, destVal: nat)
      requires Valid() && InBounds(f) && InBounds(t) && Ahead(f, t, d) && tempBoard[Idx(f)] != 0
      modifies this`draws, board, tempBoard
      ensures Valid()
      ensures srcVal == old(tempBoard[Idx(f)]) && destVal == old(tempBoard[Idx(t)])
      ensures tempBoard[..] == Put(Put(old(tempBoard[..]), f, 0), Landing(old(tempBoard[..]), f, t, d),
                                   if destVal == srcVal then srcVal + 1 else srcVal)
      ensures if destVal == srcVal && srcVal + 1 == ResetExponent
              then (board[..], draws) == ResetBoard(rand, old(draws))
              else board[..] == old(board[..]) && draws == old(draws)
    {
      BoundsByDepth(f, d);
      BoundsByDepth(t, d);
      BoundsByDepth(Back(t, d), d);
      srcVal := tempBoard[Idx(f)];
      destVal := tempBoard[Idx(t)];
      ghost var to := Landing(tempBoard[..], f, t, d);
      tempBoard[Idx(f)] := 0;
      ghost var cleared := tempBoard[..];
      if destVal == srcVal {
        var merged: nat := srcVal + 1;
        tempBoard[Idx(t)] := merged;
        assert tempBoard[..] == cleared[Idx(to) := merged];
        if srcVal + 1 == ResetExponent {
          ghost var temp := tempBoard[..];
          Reset();
          assert tempBoard[..] == temp;
        }
      } else {
        // t - (dx, dy) * (destVal != 0)
        var stop := if destVal != 0 then Back(t, d) else t;
        tempBoard[Idx(stop)] := srcVal;
        assert tempBoard[..] == cleared[Idx(to) := srcVal];
      }
    }

    /** Game.cpp:329-357. */
    method ApplyMove(f: Pos, t: Pos, d: Dir, now: int)
      requires Valid() && InBounds(f) && InBounds(t) && Ahead(f, t, d) && tempBoard[Idx(f)] != 0
      modifies this, board, tempBoard
      ensures Valid()
      ensures Abstract() == Applied(old(Abstract()), f, t, d, now, rand)
    {
      BoundsByDepth(f, d);
      BoundsByDepth(t, d);
      BoundsByDepth(Back(t, d), d);
      ghost var s := Abstract();
      var srcVal, destVal := LandOnScratch(f, t, d);
      AppliedScratch(s, f, t, d, now, rand);
      ghost var live := board[..];
      var to := if destVal == srcVal then t else if destVal != 0 then Back(t, d) else t;
      assert to == Landing(s.temp, f, t, d);
      if f != to {
        board[Idx(f)] := 0;
        assert board[..] == live[Idx(f) := 0];
        moves := moves + [Motion(f, to, srcVal)];
        animState := true;
        animStart := now;
      }
    }

    /** The copy at the top of `move` (Game.cpp:217-221): the scratch board
        becomes a copy of the live board. */
    method CopyToScratch()
      requires Valid()
      modifies tempBoard
      ensures tempBoard[..] == board[..]
    {
      var x := 0;
      while x < W
        invariant 0 <= x <= W
        invariant forall i :: 0 <= i < x * H ==> tempBoard[i] == board[i]
      {
        var y := 0;
        while y < H
          invariant 0 <= y <= H
          invariant forall i :: 0 <= i < x * H + y ==> tempBoard[i] == board[i]
        {
          tempBoard[x * H + y] := board[x * H + y];
          y := y + 1;
        }
        x := x + 1;
      }
    }

    /** The body of the inner loop of `move` (Game.cpp:226-237 and its three
        mirror images): a non-empty source cell is moved to its target. */
    method StepCell(p: Pos, d: Dir, now: int)
      requires Valid() && InBounds(p) && Depth(p, d) >= 1
      modifies this, board, tempBoard
      ensures Valid()
      ensures Abstract() == StepAt(old(Abstract()), p, d, now, rand)
    {
      if tempBoard[Idx(p)] != 0 {
        var t := FindTarget(p, d);
        TargetSpec(tempBoard[..], p, d);
        ApplyMove(p, t, d, now);
      }
    }

    /** The inner loop of `move` (Game.cpp:224-238 and its three mirror
        images): every lane at the given depth, in order. */
    method ScanDepth(d: Dir, depth: int, now: int)
      requires Valid() && 1 <= depth < Lines(d)
      modifies this, board, tempBoard
      ensures Valid()
      ensures Abstract() == ScanLane(old(Abstract()), d, depth, Lanes(d), now, rand)
    {
      ghost var s0 := Abstract();
      var lane: nat := 0;
      while lane < Lanes(d)
        invariant lane <= Lanes(d)
        invariant Valid()
        invariant Abstract() == ScanLane(s0, d, depth, lane, now, rand)
      {
        var p := Source(d, depth, lane);
        BoundsByDepth(p, d);
        StepCell(p, d, now);
        ScanLaneNext(s0, d, depth, lane, now, rand);
        lane := lane + 1;
      }
    }

    /** Game.cpp:215-297: copy the live board into the scratch board, then
        visit the depths from the wall outward (the outer loop of each of the
        four branches). */
    method Scan(d: Dir, now: int)
      requires Valid()
      modifies this, board, tempBoard
      ensures Valid()
      ensures Abstract() == ScanLines(old(Abstract()).(temp := old(Abstract()).board), d, Lines(d), now, rand)
    {
      CopyToScratch();
      ghost var s0 := Abstract();
      assert s0 == old(Abstract()).(temp := old(Abstract()).board);
      var depth := 1;
      while depth < Lines(d)
        invariant 1 <= depth <= Lines(d)
        invariant Valid()
        invariant Abstract() == ScanLines(s0, d, depth, now, rand)
      {
        ScanDepth(d, depth, now);
        depth := depth + 1;
      }
    }

    /** Game.cpp:215-327: the scan, then the game-over test on the scratch
        board, which resets the live board when it succeeds. */
    method Move(d: Dir, now: int)
      requires Valid()
      modifies this, board, tempBoard
      ensures Valid()
      ensures Abstract() == Moved(old(Abstract()), d, now, rand)
    {
      Scan(d, now);
      var isGameOver := IsGameOver();
      if isGameOver {
        Reset();
      }
    }

    /** The write-back loop of Game.cpp:44-58: each record, in order, clears
        its source on the live board and writes its value, merged when the
        destination held the same value, into its destination. */
    method CommitMoves()
      requires board.Length == Size && AllInBounds(moves)
      modifies board
      ensures board[..] == Committed(old(board[..]), moves)
    {
      var i := 0;
      while i < |moves|
        invariant 0 <= i <= |moves|
        invariant board[..] == Committed(old(board[..]), moves[..i])
      {
        ghost var b := board[..];
        var f := moves[i].from;
        var t := moves[i].to;
        var srcVal := moves[i].value;
        var destVal := board[Idx(t)];
        board[Idx(f)] := 0;
        assert board[..] == Put(b, f, 0);
        var v := if srcVal == destVal && f != t then srcVal + 1 else srcVal;
        board[Idx(t)] := v;
        assert board[..] == CommitOne(b, moves[i]);
        assert moves[..i + 1][..i] == moves[..i];
        i := i + 1;
      }
      assert moves[..i] == moves;
    }

    /** Game.cpp:39-69; the clock test is `now - animStart >= duration`. */
    method Update(now: int)
      requires Valid()
      modifies this, board
      ensures Valid()
      ensures Abstract() == Updated(old(Abstract()), now - old(animStart) >= duration, rand)
    {
      if animState {
        if now - animStart >= duration {
          animState := false;
          CommitMoves();
          moves := [];
          Spawn();
        }
      }
    }

    /** Game.cpp:20-37: a key press is ignored while an animation runs. */
    method OnEvent(e: Event, now: int)
      requires Valid()
      modifies this, board, tempBoard
      ensures Valid()
      ensures Abstract() == Handled(old(Abstract()), e, now, rand)
      ensures old(animState) ==> Abstract() == old(Abstract())
    {
      if e.DirectionKey? || e.OtherKey? {
        if animState {
          return;
        }
        if e.DirectionKey? {
          Move(e.dir, now);
        }
      }
    }
  }
}
