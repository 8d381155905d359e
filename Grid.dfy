/** Board geometry of the 2048 engine: the flat cell layout of `char map[W][H]`,
    the four directions, the tile search along a line, and the board
    predicates (full, stuck, empty cells, total value) that the engine's loops
    are proved against. */
module Grid {

  /** FIELD_WIDTH and FIELD_HEIGHT; the classic 4 x 4 board. */
  const W: nat := 4
  const H: nat := 4
  const Size: nat := W * H

  /** A board: one exponent per cell, 0 is empty and k > 0 is the tile 2^k. */
  type Board = g: seq<nat> | |g| == Size witness seq(W * H, i => 0)

  datatype Pos = Pos(x: int, y: int)

  datatype Dir = Left | Right | Up | Down

  predicate InBounds(p: Pos) {
    0 <= p.x < W && 0 <= p.y < H
  }

  /** `map[x][y]` of a `char map[W][H]` lives at offset x * H + y. */
  function Idx(p: Pos): (i: nat)
    requires InBounds(p)
    ensures i < Size
  {
    p.x * H + p.y
  }

  function PosOf(i: nat): (p: Pos)
    requires i < Size
    ensures InBounds(p) && Idx(p) == i
  {
    Pos(i / H, i % H)
  }

  lemma IdxInjective(p: Pos, q: Pos)
    requires InBounds(p) && InBounds(q) && Idx(p) == Idx(q)
    ensures p == q
  {
  }

  function At(g: Board, p: Pos): nat
    requires InBounds(p)
  {
    g[Idx(p)]
  }

  /** The board with cell p overwritten by v. */
  function Put(g: Board, p: Pos, v: nat): (r: Board)
    requires InBounds(p)
    ensures At(r, p) == v
  {
    g[Idx(p) := v]
  }

  /** Put leaves every other cell as it was. */
  lemma PutFrame(g: Board, p: Pos, v: nat)
    requires InBounds(p)
    ensures forall q :: InBounds(q) && q != p ==> At(Put(g, p, v), q) == At(g, q)
  {
    forall q | InBounds(q) && q != p ensures Idx(q) != Idx(p) {
      if Idx(q) == Idx(p) { IdxInjective(p, q); }
    }
  }

  /** Writes to two different cells commute; a second write to a cell
      replaces the first; writing a cell's own value changes nothing. */
  lemma PutCommute(g: Board, p: Pos, v: nat, q: Pos, w: nat)
    requires InBounds(p) && InBounds(q) && p != q
    ensures Put(Put(g, p, v), q, w) == Put(Put(g, q, w), p, v)
  {
    if Idx(p) == Idx(q) { IdxInjective(p, q); }
  }

  lemma PutTwice(g: Board, p: Pos, v: nat, w: nat)
    requires InBounds(p)
    ensures Put(Put(g, p, v), p, w) == Put(g, p, w)
  {
  }

  lemma PutSame(g: Board, p: Pos)
    requires InBounds(p)
    ensures Put(g, p, At(g, p)) == g
  {
  }

  function EmptyBoard(): (r: Board)
    ensures forall p :: InBounds(p) ==> At(r, p) == 0
  {
    seq(Size, i => 0)
  }

  // ---------------------------------------------------------------------------
  // Directions. A move toward a wall is described by the distance of a cell to
  // that wall (its depth) and by the line it moves along (its lane).

  function DX(d: Dir): int {
    match d
    case Left => -1
    case Right => 1
    case _ => 0
  }

  function DY(d: Dir): int {
    match d
    case Up => -1
    case Down => 1
    case _ => 0
  }

  /** One cell toward the wall. */
  function Step(p: Pos, d: Dir): Pos {
    Pos(p.x + DX(d), p.y + DY(d))
  }

  /** One cell away from the wall: `t - (dx, dy)`. */
  function Back(p: Pos, d: Dir): Pos {
    Pos(p.x - DX(d), p.y - DY(d))
  }

  /** Number of steps from p to the wall that d moves toward. */
  function Depth(p: Pos, d: Dir): int {
    match d
    case Left => p.x
    case Right => W - 1 - p.x
    case Up => p.y
    case Down => H - 1 - p.y
  }

  /** The row (horizontal moves) or column (vertical moves) p lies in. */
  function Lane(p: Pos, d: Dir): int {
    match d
    case Left => p.y
    case Right => p.y
    case Up => p.x
    case Down => p.x
  }

  /** Number of depths and of lanes of a move in direction d. */
  function Lines(d: Dir): nat {
    if d == Left || d == Right then W else H
  }

  function Lanes(d: Dir): nat {
    if d == Left || d == Right then H else W
  }

  /** The cell at the given depth of the given lane. */
  function Source(d: Dir, depth: int, lane: int): (p: Pos)
    ensures Depth(p, d) == depth && Lane(p, d) == lane
    ensures 0 <= depth < Lines(d) && 0 <= lane < Lanes(d) ==> InBounds(p)
  {
    match d
    case Left => Pos(depth, lane)
    case Right => Pos(W - 1 - depth, lane)
    case Up => Pos(lane, depth)
    case Down => Pos(lane, H - 1 - depth)
  }

  lemma BoundsByDepth(p: Pos, d: Dir)
    ensures InBounds(p) <==> 0 <= Depth(p, d) < Lines(d) && 0 <= Lane(p, d) < Lanes(d)
    ensures Source(d, Depth(p, d), Lane(p, d)) == p
    ensures Depth(Step(p, d), d) == Depth(p, d) - 1 && Lane(Step(p, d), d) == Lane(p, d)
    ensures Depth(Back(p, d), d) == Depth(p, d) + 1 && Lane(Back(p, d), d) == Lane(p, d)
    ensures Back(Step(p, d), d) == p
  {
  }

  /** q lies in p's lane strictly closer to the wall than p. */
  predicate Ahead(p: Pos, q: Pos, d: Dir) {
    Lane(q, d) == Lane(p, d) && Depth(q, d) < Depth(p, d)
  }

  // ---------------------------------------------------------------------------
  // Tile search (Game.cpp:228-235 and its three mirror images): from the source
  // cell, step toward the wall; stop on the first occupied cell, or on the wall
  // cell when every cell on the way is empty.

  function Target(g: Board, p: Pos, d: Dir): (t: Pos)
    requires InBounds(p) && Depth(p, d) >= 1
    ensures InBounds(t) && Ahead(p, t, d)
    decreases Depth(p, d)
  {
    BoundsByDepth(p, d);
    BoundsByDepth(Step(p, d), d);
    var q := Step(p, d);
    if At(g, q) != 0 || Depth(q, d) == 0 then q else Target(g, q, d)
  }

  /** One step of the search: the next cell is in bounds, and the target is
      that cell when it is occupied or at the wall, else the target from it. */
  lemma TargetNext(g: Board, p: Pos, d: Dir)
    requires InBounds(p) && Depth(p, d) >= 1
    ensures var q := Step(p, d);
      InBounds(q) && Depth(q, d) == Depth(p, d) - 1 &&
      (At(g, q) != 0 || Depth(q, d) == 0 ==> Target(g, p, d) == q) &&
      (At(g, q) == 0 && Depth(q, d) >= 1 ==> Target(g, p, d) == Target(g, q, d))
  {
    BoundsByDepth(p, d);
    BoundsByDepth(Step(p, d), d);
  }

  /** The target is a different cell ahead of the source, every cell strictly
      between the two is empty, and the target is occupied or is the wall cell. */
  lemma {:induction false} TargetSpec(g: Board, p: Pos, d: Dir)
    requires InBounds(p) && Depth(p, d) >= 1
    ensures var t := Target(g, p, d);
      InBounds(t) && Ahead(p, t, d) && t != p &&
      (forall c :: InBounds(c) && Ahead(p, c, d) && Ahead(c, t, d) ==> At(g, c) == 0) &&
      (At(g, t) != 0 || Depth(t, d) == 0)
    decreases Depth(p, d)
  {
    BoundsByDepth(p, d);
    var q := Step(p, d);
    BoundsByDepth(q, d);
    if At(g, q) != 0 || Depth(q, d) == 0 {
    } else {
      TargetSpec(g, q, d);
      var t := Target(g, q, d);
      forall c | InBounds(c) && Ahead(p, c, d) && Ahead(c, t, d) ensures At(g, c) == 0 {
        BoundsByDepth(c, d);
        if c != q {
          assert Ahead(q, c, d);
        }
      }
    }
  }

  // ---------------------------------------------------------------------------
  // Full and stuck boards (the game-over test of Game.cpp:299-323).

  ghost predicate Full(g: Board) {
    forall p :: InBounds(p) ==> At(g, p) != 0
  }

  /** Some 4-neighbour of p holds p's value, tested in the source's order. */
  predicate HasEqualNeighbour(g: Board, p: Pos)
    requires InBounds(p)
  {
    var v := At(g, p);
    (p.x != 0 && At(g, Pos(p.x - 1, p.y)) == v) ||
    (p.y != 0 && At(g, Pos(p.x, p.y - 1)) == v) ||
    (p.x != W - 1 && At(g, Pos(p.x + 1, p.y)) == v) ||
    (p.y != H - 1 && At(g, Pos(p.x, p.y + 1)) == v)
  }

  /** p is occupied and differs from each of its 4-neighbours. */
  predicate Settled(g: Board, p: Pos)
    requires InBounds(p)
  {
    At(g, p) != 0 && !HasEqualNeighbour(g, p)
  }

  /** Every cell is occupied and no two 4-adjacent cells are equal. */
  ghost predicate Stuck(g: Board) {
    forall p {:trigger Settled(g, p)} :: InBounds(p) ==> Settled(g, p)
  }

  lemma StuckNeighbour(g: Board, p: Pos, d: Dir)
    requires Stuck(g) && InBounds(p) && InBounds(Step(p, d))
    ensures At(g, Step(p, d)) != 0 && At(g, Step(p, d)) != At(g, p)
  {
    assert Settled(g, p) && Settled(g, Step(p, d));
  }

  // ---------------------------------------------------------------------------
  // Empty cells, in the order Spawn's nested loops list them (x outer, y inner,
  // which is increasing flat offset).

  function EmptyPrefix(g: Board, n: nat): (cells: seq<Pos>)
    requires n <= Size
    ensures |cells| <= n
  {
    if n == 0 then [] else EmptyPrefix(g, n - 1) + (if g[n - 1] == 0 then [PosOf(n - 1)] else [])
  }

  function EmptyCells(g: Board): seq<Pos> {
    EmptyPrefix(g, Size)
  }

  lemma {:induction false} EmptyPrefixSound(g: Board, n: nat, c: Pos)
    requires n <= Size && c in EmptyPrefix(g, n)
    ensures InBounds(c) && At(g, c) == 0 && Idx(c) < n
  {
    if c !in EmptyPrefix(g, n - 1) {
      assert c == PosOf(n - 1);
    } else {
      EmptyPrefixSound(g, n - 1, c);
    }
  }

  lemma {:induction false} EmptyPrefixComplete(g: Board, n: nat, p: Pos)
    requires n <= Size && InBounds(p) && Idx(p) < n && At(g, p) == 0
    ensures p in EmptyPrefix(g, n)
  {
    if Idx(p) == n - 1 {
      IdxInjective(p, PosOf(n - 1));
    } else {
      EmptyPrefixComplete(g, n - 1, p);
    }
  }

  /** A cell is listed exactly when it is on the board and empty. */
  lemma EmptyCellsSpec(g: Board, p: Pos)
    ensures p in EmptyCells(g) <==> InBounds(p) && At(g, p) == 0
  {
    if InBounds(p) && At(g, p) == 0 {
      EmptyPrefixComplete(g, Size, p);
    }
    if p in EmptyCells(g) {
      EmptyPrefixSound(g, Size, p);
    }
  }

  lemma FullIffNoEmptyCells(g: Board)
    ensures Full(g) <==> EmptyCells(g) == []
  {
    if EmptyCells(g) != [] {
      EmptyCellsSpec(g, EmptyCells(g)[0]);
    }
    if !Full(g) {
      var p :| InBounds(p) && At(g, p) == 0;
      EmptyCellsSpec(g, p);
    }
  }

  /** A stuck board is full. */
  lemma StuckIsFull(g: Board)
    requires Stuck(g)
    ensures Full(g)
  {
    forall p | InBounds(p) ensures At(g, p) != 0 {
      assert Settled(g, p);
    }
  }

  // ---------------------------------------------------------------------------
  // Total value of a board: the sum of 2^k over its occupied cells.

  function Pow2(k: nat): (r: nat)
    ensures r >= 1
  {
    if k == 0 then 1 else 2 * Pow2(k - 1)
  }

  function TileValue(v: nat): nat {
    if v == 0 then 0 else Pow2(v)
  }

  function Total(s: seq<nat>): nat {
    if s == [] then 0 else Total(s[..|s| - 1]) + TileValue(s[|s| - 1])
  }

  /** Overwriting one cell changes the total by the difference of the two tiles. */
  lemma {:induction false} TotalUpdate(s: seq<nat>, i: nat, v: nat)
    requires i < |s|
    ensures Total(s[i := v]) + TileValue(s[i]) == Total(s) + TileValue(v)
    decreases |s|
  {
    var n := |s| - 1;
    if i < n {
      TotalUpdate(s[..n], i, v);
      assert s[i := v][..n] == s[..n][i := v];
    } else {
      assert s[i := v][..n] == s[..n];
    }
  }

  lemma TotalPut(g: Board, p: Pos, v: nat)
    requires InBounds(p)
    ensures Total(Put(g, p, v)) + TileValue(At(g, p)) == Total(g) + TileValue(v)
  {
    TotalUpdate(g, Idx(p), v);
  }

  // ---------------------------------------------------------------------------
  // Number of occupied cells.

  function Occupied(v: nat): nat {
    if v == 0 then 0 else 1
  }

  function Tiles(s: seq<nat>): nat {
    if s == [] then 0 else Tiles(s[..|s| - 1]) + Occupied(s[|s| - 1])
  }

  lemma {:induction false} TilesUpdate(s: seq<nat>, i: nat, v: nat)
    requires i < |s|
    ensures Tiles(s[i := v]) + Occupied(s[i]) == Tiles(s) + Occupied(v)
    decreases |s|
  {
    var n := |s| - 1;
    if i < n {
      TilesUpdate(s[..n], i, v);
      assert s[i := v][..n] == s[..n][i := v];
    } else {
      assert s[i := v][..n] == s[..n];
    }
  }

  lemma TilesPut(g: Board, p: Pos, v: nat)
    requires InBounds(p)
    ensures Tiles(Put(g, p, v)) + Occupied(At(g, p)) == Tiles(g) + Occupied(v)
  {
    TilesUpdate(g, Idx(p), v);
  }

  /** At most one tile per cell, and one in every cell exactly when no entry
      is 0. */
  lemma {:induction false} TilesBound(s: seq<nat>)
    ensures Tiles(s) <= |s|
    ensures Tiles(s) == |s| <==> forall i :: 0 <= i < |s| ==> s[i] != 0
    decreases |s|
  {
    if s != [] {
      var n := |s| - 1;
      TilesBound(s[..n]);
      if Tiles(s) == |s| {
        forall i | 0 <= i < |s| ensures s[i] != 0 {
          if i < n {
            assert s[..n][i] == s[i];
          }
        }
      }
      if forall i :: 0 <= i < |s| ==> s[i] != 0 {
        assert forall i :: 0 <= i < n ==> s[..n][i] != 0;
      }
    }
  }

  lemma FullIffAllTiles(g: Board)
    ensures Full(g) <==> Tiles(g) == Size
  {
    TilesBound(g);
    if Full(g) {
      forall i | 0 <= i < Size ensures g[i] != 0 {
        assert At(g, PosOf(i)) != 0;
      }
    }
  }
}
