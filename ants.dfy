/*
 * The framework of the bot (the C# namespace `Ants`): directions, locations and
 * ants (Framework/Location.cs), cell types and tiles (Framework/Tile.cs) and the
 * per-turn world model `GameState` (Framework/GameState.cs).
 *
 * The three source files refer to one another (an ant moves through the game
 * state, a tile asks the game state whether its cell is occupied, the game state
 * stores cell types), so they form one module here, as they form one namespace
 * in the source.
 */
module Ants {

  datatype Option<T> = None | Some(value: T)

  /* ---------------------------------------------------------------------------
   * Integer arithmetic of the source
   * ------------------------------------------------------------------------- */

  function Abs(x: int): nat { if x < 0 then -x else x }

  function Min(x: int, y: int): int { if x <= y then x else y }

  /** C#'s `%`: truncates toward zero, so the remainder has the sign of the dividend. */
  function CsRemainder(a: int, n: int): (r: int)
    requires 0 < n
    ensures -n < r < n
    ensures 0 <= a ==> r == a % n
    ensures a < 0 ==> r <= 0 && (r == 0 ==> a % n == 0) && (r < 0 ==> r + n == a % n)
  {
    if 0 <= a then a % n
    else
      var b := -a;
      var q, m := b / n, b % n;
      assert b == n * q + m;
      if m == 0 then
        ModOfMultiple(a, n, -q, 0);
        0
      else
        ModOfMultiple(a, n, -q - 1, n - m);
        -m
  }

  /** `v % n` is the unique residue `w` in `[0, n)` with `v == n * k + w`. */
  lemma ModOfMultiple(v: int, n: int, k: int, w: int)
    requires 0 < n && 0 <= w < n && v == n * k + w
    ensures v % n == w
  {
    var q := v / n;
    assert v == n * q + v % n;
    assert n * (q - k) == w - v % n;
    if q > k {
      MulAtLeast(n, q - k);
    } else if q < k {
      MulAtLeast(n, k - q);
    }
  }

  lemma {:induction false} MulAtLeast(n: int, t: int)
    requires 0 < n && 1 <= t
    ensures n * t >= n
  {
    if t > 1 {
      MulAtLeast(n, t - 1);
      assert n * t == n * (t - 1) + n;
    }
  }

  /**
   * The wrap of GameState.Destination: `x % n`, then `+ n` when that is negative.
   * Whatever the sign of `v`, the result is the Euclidean residue of `v` modulo `n`.
   */
  function Wrap(v: int, n: int): (w: int)
    requires 0 < n
    ensures 0 <= w < n
    ensures w == v % n
  {
    var r := CsRemainder(v, n);
    if r < 0 then r + n else r
  }

  /** A unit step off either end of `[0, n)` comes back in at the other end. */
  lemma WrapStep(v: int, n: int)
    requires 0 < n && -1 <= v <= n
    ensures Wrap(v, n) == if v < 0 then n - 1 else if v == n then 0 else v
  {
    if v == -1 {
      assert (n - 1) % n == n - 1;
      assert Wrap(v, n) == (n - 1) % n by {
        // both are residues of -1 modulo n
        assert v % n == (v + n) % n;
      }
    } else if v == n {
      assert n % n == 0;
    }
  }

  /** C# `unchecked` conversion of an integer result to a 32-bit `int`. */
  function ToInt32(x: int): (r: int)
    ensures -0x8000_0000 <= r < 0x8000_0000
    ensures (x - r) % 0x1_0000_0000 == 0
  {
    var m := x % 0x1_0000_0000;
    if m < 0x8000_0000 then m else m - 0x1_0000_0000
  }

  const IntMaxValue: int := 0x7FFF_FFFF

  /* ---------------------------------------------------------------------------
   * Framework/Location.cs: Direction
   * ------------------------------------------------------------------------- */

  /**
   * A `Direction` object. The four static instances are `North`, `South`, `West`
   * and `East`; `Custom(r, c)` is any other instance built by `new Direction(r, c)`,
   * which compares unequal to all four (C# compares these objects by reference)
   * even when its offsets are the same as theirs.
   */
  datatype Direction = North | South | West | East | Custom(dRow: int, dCol: int)
  {
    function Row(): int {
      match this
      case North => -1
      case South => 1
      case West => 0
      case East => 0
      case Custom(r, _) => r
    }

    function Col(): int {
      match this
      case North => 0
      case South => 0
      case West => -1
      case East => 1
      case Custom(_, c) => c
    }

    /** One of the four static instances. */
    predicate IsConstant() { !Custom? }

    /** A step along the row axis (the first half of GetDirection's answer). */
    predicate IsVertical() { this == North || this == South }

    /**
     * The order letter of a direction; `None` stands for the ArgumentException
     * thrown for any instance other than the four constants.
     */
    function ToChar(): (c: Option<char>)
      ensures c.Some? <==> IsConstant()
      ensures c.Some? ==> c.value in {'n', 's', 'e', 'w'}
    {
      if this == North then Some('n')
      else if this == South then Some('s')
      else if this == East then Some('e')
      else if this == West then Some('w')
      else None
    }
  }

  /**
   * The `Ants.Aim` dictionary from order letters to the four constant directions;
   * `None` stands for the KeyNotFoundException of a missing key.
   */
  function Aim(c: char): (d: Option<Direction>)
    ensures d.Some? <==> c in {'n', 's', 'e', 'w'}
    ensures d.Some? ==> d.value.IsConstant()
  {
    match c
    case 'n' => Some(North)
    case 's' => Some(South)
    case 'e' => Some(East)
    case 'w' => Some(West)
    case _ => None
  }

  /** ToChar and Aim are inverse to each other on the four constants and the four letters. */
  lemma AimInvertsToChar(d: Direction, c: char)
    ensures d.IsConstant() ==> Aim(d.ToChar().value) == Some(d)
    ensures c in {'n', 's', 'e', 'w'} ==> Aim(c).value.ToChar() == Some(c)
  {
  }

  /** Each constant is a unit step along exactly one axis, with the source's signs. */
  lemma ConstantDirectionsAreUnitSteps(d: Direction)
    requires d.IsConstant()
    ensures Abs(d.Row()) + Abs(d.Col()) == 1
    ensures d.IsVertical() <==> d.Col() == 0
    ensures d.Row() == (if d == North then -1 else if d == South then 1 else 0)
    ensures d.Col() == (if d == West then -1 else if d == East then 1 else 0)
  {
  }

  /** ToChar decides by identity: a new instance with North's offsets still has no letter. */
  lemma ToCharIsByIdentity(r: int, c: int)
    ensures Custom(r, c).ToChar() == None
    ensures Custom(-1, 0).Row() == North.Row() && Custom(-1, 0).Col() == North.Col()
  {
  }

  /* ---------------------------------------------------------------------------
   * Framework/Location.cs: Location, AntLoc, LocationComparer
   * ------------------------------------------------------------------------- */

  /**
   * A grid position. Its coordinates never change after construction and are
   * stored as given (no wrapping). The source also keeps a back-reference to the
   * game state; here the game state is passed explicitly wherever it is used.
   */
  class Location {
    const row: int
    const col: int

    constructor (row: int, col: int)
      ensures this.row == row && this.col == col
    {
      this.row := row;
      this.col := col;
    }
  }

  /**
   * An ant: its position (the C# class derives from Location; here it holds one),
   * its team, and the target it is walking to, which the bot sets.
   */
  class AntLoc {
    const at: Location
    const team: int
    var target: Location?

    constructor (row: int, col: int, team: int)
      ensures fresh(at) && at.row == row && at.col == col
      ensures this.team == team && target == null
    {
      at := new Location(row, col);
      this.team := team;
      target := null;
    }

    /** Whether the step in direction `d` lands on a cell that is not water. */
    method IsValidMove(s: GameState, d: Direction) returns (ok: bool)
      requires s.Shaped() && d.IsConstant()
      ensures ok == s.PassableStep(at, d)
    {
      var dest := s.Destination(at, d);
      ok := s.IsPassable(dest.value);
    }

    /**
     * With a target, tries the candidate directions of GetDirection in order and
     * issues the first one whose destination is passable; otherwise no order.
     */
    method Move(s: GameState) returns (order: Option<Direction>)
      requires s.Shaped()
      ensures order == s.MoveOrder(at, target)
    {
      order := None;
      if target != null {
        var candidates := s.GetDirection(at, target);
        order := FirstValidMove(s, candidates);
      }
    }

    /** The loop of Move: tries the candidates in order and takes the first valid one. */
    method FirstValidMove(s: GameState, candidates: seq<Direction>) returns (order: Option<Direction>)
      requires s.Shaped()
      requires forall d :: d in candidates ==> d.IsConstant()
      ensures order == s.FirstPassable(at, candidates)
    {
      order := None;
      var i := 0;
      while i < |candidates|
        invariant 0 <= i <= |candidates|
        invariant s.FirstPassable(at, candidates) == s.FirstPassable(at, candidates[i..])
      {
        s.FirstPassableUnfold(at, candidates, i);
        var ok := IsValidMove(s, candidates[i]);
        if ok {
          order := Some(candidates[i]);
          return;
        }
        i := i + 1;
      }
      assert candidates[i..] == [];
    }
  }

  /** LocationComparer.Equals: same row and same column, whatever the objects. */
  predicate LocationEquals(a: Location, b: Location)
    ensures a == b ==> LocationEquals(a, b)
  {
    a.row == b.row && a.col == b.col
  }

  /** LocationComparer.GetHashCode: `Row * int.MaxValue + Col` in unchecked 32-bit arithmetic. */
  function LocationHash(loc: Location): (h: int)
    ensures -0x8000_0000 <= h < 0x8000_0000
    ensures (loc.row * IntMaxValue + loc.col - h) % 0x1_0000_0000 == 0
  {
    ToInt32(loc.row * IntMaxValue + loc.col)
  }

  /** The comparer is an equivalence relation, and equal locations hash alike. */
  lemma LocationComparerIsConsistent(a: Location, b: Location, c: Location)
    ensures LocationEquals(a, a)
    ensures LocationEquals(a, b) ==> LocationEquals(b, a)
    ensures LocationEquals(a, b) && LocationEquals(b, c) ==> LocationEquals(a, c)
    ensures LocationEquals(a, b) ==> LocationHash(a) == LocationHash(b)
  {
  }

  /** One order line `o <row> <col> <letter>` of GameState.issueOrder. */
  datatype Order = Order(row: int, col: int, dir: char)

  /** The order that moves the ant at `loc` one step in direction `d`; its letter reads back as `d`. */
  function OrderLine(loc: Location, d: Direction): (o: Order)
    requires d.IsConstant()
    ensures o.row == loc.row && o.col == loc.col
    ensures Aim(o.dir) == Some(d)
  {
    AimInvertsToChar(d, 'n');
    Order(loc.row, loc.col, d.ToChar().value)
  }

  /* ---------------------------------------------------------------------------
   * Framework/Tile.cs
   * ------------------------------------------------------------------------- */

  datatype TileType = Ant | Dead | Land | Food | Water | Unseen

  /** A node of the path search: a cell type and a location, both fixed at construction. */
  datatype Tile = Tile(kind: TileType, location: Location)
  {
    /**
     * Only land and food can be walked on, and only while nobody occupies the
     * cell. The search context is ignored.
     */
    predicate IsWalkable(s: GameState, inContext: object?)
      reads s.grid
      requires s.Shaped() && s.InRange(location)
      ensures kind in {Water, Ant, Dead, Unseen} ==> !IsWalkable(s, inContext)
      ensures kind in {Land, Food} ==> (IsWalkable(s, inContext) <==> s.IsUnoccupied(location))
      ensures IsWalkable(s, inContext) ==> s.IsUnoccupied(location) && s.IsPassable(location)
    {
      (kind == Land || kind == Food) && s.IsUnoccupied(location)
    }
  }

  /* ---------------------------------------------------------------------------
   * Framework/GameState.cs
   * ------------------------------------------------------------------------- */

  /** Whether some location of `locs` sits at (row, col). */
  predicate Covers(locs: seq<Location>, row: int, col: int) {
    exists i :: 0 <= i < |locs| && locs[i].row == row && locs[i].col == col
  }

  /** Ants `i` and `j` of the list are different objects. */
  predicate Apart(ants: seq<AntLoc>, i: int, j: int) {
    0 <= i < |ants| && 0 <= j < |ants| && ants[i] != ants[j]
  }

  /**
   * No ant object occurs twice in the list. The quantifier fires only on an
   * explicit `Apart` term, so a proof asks for the pairs it needs.
   */
  predicate Distinct(ants: seq<AntLoc>) {
    forall i, j {:trigger Apart(ants, i, j)} :: 0 <= i < |ants| && 0 <= j < |ants| && i != j ==> Apart(ants, i, j)
  }

  /** Appending an ant that is not yet listed keeps the list free of repeats. */
  lemma DistinctSnoc(ants: seq<AntLoc>, a: AntLoc)
    requires Distinct(ants) && a !in ants
    ensures Distinct(ants + [a])
  {
    var t := ants + [a];
    forall i, j | 0 <= i < |t| && 0 <= j < |t| && i != j
      ensures Apart(t, i, j)
    {
      if i < |ants| && j < |ants| {
        assert Apart(ants, i, j);
      } else if i < |ants| {
        assert ants[i] in ants;
      } else {
        assert ants[j] in ants;
      }
    }
  }

  /** The positions of a list of ants, in order. */
  function Positions(ants: seq<AntLoc>): (ps: seq<Location>)
    ensures |ps| == |ants|
    ensures forall i :: 0 <= i < |ants| ==> ps[i] == ants[i].at
  {
    seq(|ants|, i requires 0 <= i < |ants| => ants[i].at)
  }

  /** Index of the first occurrence of `x` in `s`, or `|s|` when there is none. */
  function FirstIndex<T(==)>(s: seq<T>, x: T): (k: nat)
    ensures k <= |s|
    ensures k < |s| ==> s[k] == x
    ensures x !in s[..k]
    ensures k == |s| <==> x !in s
  {
    if s == [] then 0
    else if s[0] == x then 0
    else
      var k := FirstIndex(s[1..], x);
      assert s[..k + 1] == [s[0]] + s[1..][..k];
      1 + k
  }

  /** C#'s `List<T>.Remove`: drops the first element equal to `x`, by `Equals`, keeping the order of the rest. */
  function RemoveFirst<T(==)>(s: seq<T>, x: T): (r: seq<T>)
    ensures x !in s ==> r == s
    ensures x in s ==> |r| == |s| - 1 && multiset(r) == multiset(s) - multiset{x}
    ensures x in s ==> exists k :: 0 <= k < |s| && s[k] == x && x !in s[..k] && r == s[..k] + s[k + 1..]
  {
    var k := FirstIndex(s, x);
    if k < |s| then
      assert s == s[..k] + [x] + s[k + 1..];
      s[..k] + s[k + 1..]
    else
      s
  }

  /** Index of the first location of `s` at (row, col), or `|s|` when there is none. */
  function FirstAt(s: seq<Location>, row: int, col: int): (k: nat)
    ensures k <= |s|
    ensures k < |s| ==> s[k].row == row && s[k].col == col
    ensures forall j :: 0 <= j < k ==> !(s[j].row == row && s[j].col == col)
    ensures k == |s| <==> !Covers(s, row, col)
  {
    if s == [] then 0
    else if s[0].row == row && s[0].col == col then 0
    else
      var k := FirstAt(s[1..], row, col);
      assert forall j :: 1 <= j < |s| ==> s[j] == s[1..][j - 1];
      1 + k
  }

  /** `List<Location>.Remove` under LocationComparer: drops the first location at (row, col). */
  function RemoveFirstAt(s: seq<Location>, row: int, col: int): (r: seq<Location>)
    ensures !Covers(s, row, col) ==> r == s
    ensures Covers(s, row, col) ==> exists k :: (0 <= k < |s| && s[k].row == row && s[k].col == col
      && !Covers(s[..k], row, col) && r == s[..k] + s[k + 1..])
  {
    var k := FirstAt(s, row, col);
    if k < |s| then s[..k] + s[k + 1..] else s
  }

  /** Row-axis or column-axis half of GetDirection: `lower` is North or West, `higher` South or East. */
  function AxisDirections(x1: int, x2: int, n: int, lower: Direction, higher: Direction): (r: seq<Direction>)
    ensures forall d :: d in r ==> d == lower || d == higher
  {
    if x1 < x2 then
      (if x2 - x1 >= n / 2 then [lower] else []) + (if x2 - x1 <= n / 2 then [higher] else [])
    else if x2 < x1 then
      (if x1 - x2 >= n / 2 then [higher] else []) + (if x1 - x2 <= n / 2 then [lower] else [])
    else
      []
  }

  /** One axis of the toroidal distance: the shorter of the direct and the wrapped way. */
  function AxisDistance(x1: int, x2: int, n: int): int {
    Min(Abs(x1 - x2), n - Abs(x1 - x2))
  }

  class GameState {
    const width: int
    const height: int
    const loadTime: int
    const turnTime: int
    const viewRadius2: int
    const attackRadius2: int
    const spawnRadius2: int

    var myAnts: seq<AntLoc>
    var enemyAnts: seq<AntLoc>
    var deadTiles: seq<Location>
    var foodTiles: seq<Location>

    /** The `Height × Width` grid of cell types, indexed `[row, col]`. */
    const grid: array2<TileType>

    predicate InRange(loc: Location) {
      0 <= loc.row < height && 0 <= loc.col < width
    }

    /**
     * TimeRemaining as written, `elapsedMs` milliseconds into the turn: the turn
     * time minus `TimeSpan.Milliseconds`, which is only the millisecond part
     * (0 to 999) of the elapsed time, so whole seconds are never subtracted.
     */
    function TimeRemainingAsWritten(elapsedMs: nat): (r: int)
      ensures turnTime - 999 <= r <= turnTime
      ensures elapsedMs < 1000 ==> r == TimeRemaining(elapsedMs)
    {
      turnTime - elapsedMs % 1000
    }

    /**
     * TimeRemaining as evidently intended: the turn time minus the whole elapsed
     * time, so it falls below any bound once enough time has passed.
     */
    function TimeRemaining(elapsedMs: nat): (r: int)
      ensures r <= turnTime
      ensures r < 10 <==> turnTime - 10 < elapsedMs
    {
      turnTime - elapsedMs
    }

    /** The grid is non-empty and has the state's dimensions (all fixed at construction). */
    predicate Shaped() {
      0 < height && 0 < width && grid.Length0 == height && grid.Length1 == width
    }

    /**
     * The grid has the state's dimensions, every listed location is on the grid,
     * and no ant object is listed twice among my ants (each comes from its own
     * `new AntLoc`).
     */
    ghost predicate Valid()
      reads this
    {
      && Shaped()
      && (forall a :: a in myAnts ==> InRange(a.at))
      && (forall a :: a in enemyAnts ==> InRange(a.at))
      && (forall l :: l in deadTiles ==> InRange(l))
      && (forall l :: l in foodTiles ==> InRange(l))
      && Distinct(myAnts)
    }

    /** Cells that the previous turn marked and that a new turn resets to land. */
    ghost predicate Transient(row: int, col: int)
      reads this
    {
      || Covers(Positions(myAnts), row, col)
      || Covers(Positions(enemyAnts), row, col)
      || Covers(deadTiles, row, col)
      || Covers(foodTiles, row, col)
    }

    constructor (width: int, height: int, turnTime: int, loadTime: int,
                 viewRadius2: int, attackRadius2: int, spawnRadius2: int)
      requires 0 < width && 0 < height
      ensures Valid() && fresh(grid)
      ensures this.width == width && this.height == height
      ensures this.turnTime == turnTime && this.loadTime == loadTime
      ensures this.viewRadius2 == viewRadius2 && this.attackRadius2 == attackRadius2
      ensures this.spawnRadius2 == spawnRadius2
      ensures myAnts == [] && enemyAnts == [] && deadTiles == [] && foodTiles == []
      ensures forall r, c :: 0 <= r < height && 0 <= c < width ==> grid[r, c] == Land
    {
      this.width := width;
      this.height := height;
      this.loadTime := loadTime;
      this.turnTime := turnTime;
      this.viewRadius2 := viewRadius2;
      this.attackRadius2 := attackRadius2;
      this.spawnRadius2 := spawnRadius2;
      myAnts := [];
      enemyAnts := [];
      deadTiles := [];
      foodTiles := [];
      var grid := new TileType[height, width];
      var row := 0;
      while row < height
        invariant 0 <= row <= height
        invariant forall r, c :: 0 <= r < row && 0 <= c < width ==> grid[r, c] == Land
      {
        var col := 0;
        while col < width
          invariant 0 <= col <= width
          invariant forall r, c :: 0 <= r < row && 0 <= c < width ==> grid[r, c] == Land
          invariant forall c :: 0 <= c < col ==> grid[row, c] == Land
        {
          grid[row, col] := Land;
          col := col + 1;
        }
        row := row + 1;
      }
      this.grid := grid;
    }

    /** Sets the cell of every listed location to land; no other cell changes. */
    method ClearCells(locs: seq<Location>)
      requires Valid()
      requires forall l :: l in locs ==> InRange(l)
      modifies grid
      ensures forall r, c :: 0 <= r < height && 0 <= c < width ==>
        grid[r, c] == if Covers(locs, r, c) then Land else old(grid[r, c])
    {
      var i := 0;
      while i < |locs|
        invariant 0 <= i <= |locs|
        invariant forall r, c :: 0 <= r < height && 0 <= c < width ==>
          grid[r, c] == if Covers(locs[..i], r, c) then Land else old(grid[r, c])
      {
        assert locs[i] in locs;
        grid[locs[i].row, locs[i].col] := Land;
        forall r, c | 0 <= r < height && 0 <= c < width
          ensures Covers(locs[..i + 1], r, c) <==> Covers(locs[..i], r, c) || (locs[i].row == r && locs[i].col == c)
        {
          if Covers(locs[..i + 1], r, c) {
            var j :| 0 <= j < i + 1 && locs[..i + 1][j].row == r && locs[..i + 1][j].col == c;
            if j < i { assert locs[..i][j] == locs[j]; }
          }
          if Covers(locs[..i], r, c) {
            var j :| 0 <= j < i && locs[..i][j].row == r && locs[..i][j].col == c;
            assert locs[..i + 1][j] == locs[j];
          }
          if locs[i].row == r && locs[i].col == c {
            assert locs[..i + 1][i] == locs[i];
          }
        }
        i := i + 1;
      }
      assert locs[..|locs|] == locs;
    }

    /**
     * Resets every cell that holds an ant, a dead ant or food from the previous
     * turn to land and empties the four lists. Water and every other cell keep
     * their type. (The source also restarts the turn timer, which is not modelled.)
     */
    method StartNewTurn()
      requires Valid()
      modifies this, grid
      ensures Valid()
      ensures myAnts == [] && enemyAnts == [] && deadTiles == [] && foodTiles == []
      ensures forall r, c :: 0 <= r < height && 0 <= c < width ==>
        grid[r, c] == if old(Transient(r, c)) then Land else old(grid[r, c])
    {
      ClearCells(Positions(myAnts));
      ClearCells(Positions(enemyAnts));
      ClearCells(deadTiles);
      myAnts := [];
      enemyAnts := [];
      deadTiles := [];
      ClearCells(foodTiles);
      foodTiles := [];
    }

    /** Marks the cell as holding an ant and lists a new ant as mine (team 0) or an enemy. */
    method AddAnt(row: int, col: int, team: int)
      requires Valid() && 0 <= row < height && 0 <= col < width
      modifies this, grid
      ensures Valid()
      ensures grid[row, col] == Ant
      ensures forall r, c :: 0 <= r < height && 0 <= c < width && (r, c) != (row, col) ==>
        grid[r, c] == old(grid[r, c])
      ensures team == 0 ==> (enemyAnts == old(enemyAnts) && |myAnts| == |old(myAnts)| + 1
        && myAnts[..|old(myAnts)|] == old(myAnts) && NewAnt(myAnts[|old(myAnts)|], row, col, team))
      ensures team == 0 ==> fresh(myAnts[|old(myAnts)|])
      ensures team != 0 ==> (myAnts == old(myAnts) && |enemyAnts| == |old(enemyAnts)| + 1
        && enemyAnts[..|old(enemyAnts)|] == old(enemyAnts) && NewAnt(enemyAnts[|old(enemyAnts)|], row, col, team))
      ensures team != 0 ==> fresh(enemyAnts[|old(enemyAnts)|])
      ensures deadTiles == old(deadTiles) && foodTiles == old(foodTiles)
    {
      grid[row, col] := Ant;
      var ant := new AntLoc(row, col, team);
      if team == 0 {
        DistinctSnoc(myAnts, ant);
        myAnts := myAnts + [ant];
      } else {
        enemyAnts := enemyAnts + [ant];
      }
    }

    /** An ant at (row, col) of the given team, without a target. */
    predicate NewAnt(ant: AntLoc, row: int, col: int, team: int)
      reads ant
    {
      ant.at.row == row && ant.at.col == col && ant.team == team && ant.target == null
    }

    /** Marks the cell as food and lists a new location for it. */
    method AddFood(row: int, col: int)
      requires Valid() && 0 <= row < height && 0 <= col < width
      modifies this, grid
      ensures Valid()
      ensures grid[row, col] == Food
      ensures forall r, c :: 0 <= r < height && 0 <= c < width && (r, c) != (row, col) ==>
        grid[r, c] == old(grid[r, c])
      ensures |foodTiles| == |old(foodTiles)| + 1 && foodTiles[..|old(foodTiles)|] == old(foodTiles)
      ensures fresh(foodTiles[|old(foodTiles)|])
      ensures foodTiles[|old(foodTiles)|].row == row && foodTiles[|old(foodTiles)|].col == col
      ensures myAnts == old(myAnts) && enemyAnts == old(enemyAnts) && deadTiles == old(deadTiles)
    {
      grid[row, col] := Food;
      var loc := new Location(row, col);
      foodTiles := foodTiles + [loc];
    }

    /**
     * As written: the cell goes back to land only if it still shows food (an ant
     * may have stepped onto it), and the list removal looks for a location object
     * that was created just now. Locations are compared by reference, so that
     * object is never in the list and FoodTiles never changes.
     */
    method RemoveFood(row: int, col: int)
      requires Valid() && 0 <= row < height && 0 <= col < width
      modifies this, grid
      ensures Valid()
      ensures grid[row, col] == if old(grid[row, col]) == Food then Land else old(grid[row, col])
      ensures forall r, c :: 0 <= r < height && 0 <= c < width && (r, c) != (row, col) ==>
        grid[r, c] == old(grid[r, c])
      ensures foodTiles == old(foodTiles)
      ensures myAnts == old(myAnts) && enemyAnts == old(enemyAnts) && deadTiles == old(deadTiles)
    {
      if grid[row, col] == Food {
        grid[row, col] := Land;
      }
      var probe := new Location(row, col);
      foodTiles := RemoveFirst(foodTiles, probe);
    }

    /**
     * RemoveFood as evidently intended: the list removal compares locations by
     * coordinates (as LocationComparer does), so the first food listed at
     * (row, col) leaves the list.
     */
    method RemoveFoodByValue(row: int, col: int)
      requires Valid() && 0 <= row < height && 0 <= col < width
      modifies this, grid
      ensures Valid()
      ensures grid[row, col] == if old(grid[row, col]) == Food then Land else old(grid[row, col])
      ensures forall r, c :: 0 <= r < height && 0 <= c < width && (r, c) != (row, col) ==>
        grid[r, c] == old(grid[r, c])
      ensures foodTiles == RemoveFirstAt(old(foodTiles), row, col)
      ensures myAnts == old(myAnts) && enemyAnts == old(enemyAnts) && deadTiles == old(deadTiles)
    {
      if grid[row, col] == Food {
        grid[row, col] := Land;
      }
      RemoveFirstAtKeepsRange(foodTiles, row, col, this);
      foodTiles := RemoveFirstAt(foodTiles, row, col);
    }

    /** Marks the cell as water; the lists do not change. */
    method AddWater(row: int, col: int)
      requires Valid() && 0 <= row < height && 0 <= col < width
      modifies grid
      ensures grid[row, col] == Water
      ensures forall r, c :: 0 <= r < height && 0 <= c < width && (r, c) != (row, col) ==>
        grid[r, c] == old(grid[r, c])
    {
      grid[row, col] := Water;
    }

    /**
     * Marks a land cell as holding a dead ant (food may already have spawned
     * there, so other cell types stay) and always lists the location as dead.
     */
    method DeadAnt(row: int, col: int)
      requires Valid() && 0 <= row < height && 0 <= col < width
      modifies this, grid
      ensures Valid()
      ensures grid[row, col] == if old(grid[row, col]) == Land then Dead else old(grid[row, col])
      ensures forall r, c :: 0 <= r < height && 0 <= c < width && (r, c) != (row, col) ==>
        grid[r, c] == old(grid[r, c])
      ensures |deadTiles| == |old(deadTiles)| + 1 && deadTiles[..|old(deadTiles)|] == old(deadTiles)
      ensures fresh(deadTiles[|old(deadTiles)|])
      ensures deadTiles[|old(deadTiles)|].row == row && deadTiles[|old(deadTiles)|].col == col
      ensures myAnts == old(myAnts) && enemyAnts == old(enemyAnts) && foodTiles == old(foodTiles)
    {
      if grid[row, col] == Land {
        grid[row, col] := Dead;
      }
      var loc := new Location(row, col);
      deadTiles := deadTiles + [loc];
    }

    /** True unless the cell is water. */
    predicate IsPassable(loc: Location)
      reads grid
      requires Shaped() && InRange(loc)
      ensures IsPassable(loc) <==> grid[loc.row, loc.col] in {Ant, Dead, Land, Food, Unseen}
    {
      grid[loc.row, loc.col] != Water
    }

    /** True when the cell is passable and no ant stands on it. */
    predicate IsUnoccupied(loc: Location)
      reads grid
      requires Shaped() && InRange(loc)
      ensures IsUnoccupied(loc) ==> IsPassable(loc)
      ensures IsUnoccupied(loc) <==> grid[loc.row, loc.col] !in {Water, Ant}
    {
      IsPassable(loc) && grid[loc.row, loc.col] != Ant
    }

    /** Row and column that a step from `loc` in direction `d` lands on (the specification of Destination). */
    function DestRow(loc: Location, d: Direction): int
      requires 0 < height
    {
      Wrap(loc.row + d.Row(), height)
    }

    function DestCol(loc: Location, d: Direction): int
      requires 0 < width
    {
      Wrap(loc.col + d.Col(), width)
    }

    /** Whether the step from `loc` in direction `d` lands on a cell that is not water (the specification of AntLoc.IsValidMove). */
    predicate PassableStep(loc: Location, d: Direction)
      reads grid
      requires Shaped()
    {
      grid[DestRow(loc, d), DestCol(loc, d)] != Water
    }

    /**
     * The one-step move through the order letter (`Ants.Aim[direction]`);
     * `None` for a letter that is not a key of the dictionary.
     */
    method DestinationByChar(loc: Location, direction: char) returns (r: Option<Location>)
      requires 0 < height && 0 < width
      ensures r.Some? <==> Aim(direction).Some?
      ensures r.Some? ==> fresh(r.value) && InRange(r.value)
      ensures r.Some? ==> (r.value.row == Wrap(loc.row + Aim(direction).value.Row(), height)
        && r.value.col == Wrap(loc.col + Aim(direction).value.Col(), width))
    {
      var delta := Aim(direction);
      if delta.None? {
        return None;
      }
      var row := CsRemainder(loc.row + delta.value.Row(), height);
      if row < 0 {
        row := row + height;
      }
      var col := CsRemainder(loc.col + delta.value.Col(), width);
      if col < 0 {
        col := col + width;
      }
      var dest := new Location(row, col);
      r := Some(dest);
    }

    /**
     * The one-step move in direction `d`, wrapping around the edges; `None` for a
     * direction object other than the four constants (ToChar throws).
     */
    method Destination(loc: Location, d: Direction) returns (r: Option<Location>)
      requires 0 < height && 0 < width
      ensures r.Some? <==> d.IsConstant()
      ensures r.Some? ==> fresh(r.value) && InRange(r.value)
      ensures r.Some? ==> r.value.row == DestRow(loc, d) && r.value.col == DestCol(loc, d)
    {
      var c := d.ToChar();
      if c.None? {
        return None;
      }
      r := DestinationByChar(loc, c.value);
    }

    /** The toroidal Manhattan distance between two cells. */
    function CellDistance(row1: int, col1: int, row2: int, col2: int): int {
      AxisDistance(row1, row2, height) + AxisDistance(col1, col2, width)
    }

    /** The toroidal Manhattan distance between two locations, which does not depend on their order. */
    function GetDistance(loc1: Location, loc2: Location): (d: int)
      ensures d == CellDistance(loc2.row, loc2.col, loc1.row, loc1.col)
    {
      CellDistance(loc1.row, loc1.col, loc2.row, loc2.col)
    }

    /**
     * The 1 or 2 directions per axis that lead from `loc1` toward `loc2`:
     * all row-axis directions first, then the column-axis ones.
     */
    function GetDirection(loc1: Location, loc2: Location): (r: seq<Direction>)
      ensures forall d :: d in r ==> d.IsConstant()
    {
      AxisDirections(loc1.row, loc2.row, height, North, South)
        + AxisDirections(loc1.col, loc2.col, width, West, East)
    }

    /**
     * The order an ant at `from` issues toward `target`: none without a target,
     * otherwise the first passable candidate of GetDirection (the specification
     * of AntLoc.Move).
     */
    function MoveOrder(from: Location, target: Location?): (d: Option<Direction>)
      reads grid
      requires Shaped()
      ensures d.Some? ==> d.value.IsConstant()
    {
      if target == null then None
      else
        var r := FirstPassable(from, GetDirection(from, target));
        assert r.Some? ==> r.value in GetDirection(from, target);
        r
    }

    /** One step of FirstPassable on a suffix of the candidates. */
    lemma FirstPassableUnfold(from: Location, candidates: seq<Direction>, i: nat)
      requires Shaped() && i < |candidates|
      ensures FirstPassable(from, candidates[i..])
        == if PassableStep(from, candidates[i]) then Some(candidates[i])
           else FirstPassable(from, candidates[i + 1..])
    {
      assert candidates[i..][1..] == candidates[i + 1..];
    }

    /** The first candidate whose step is passable, if any (the specification of AntLoc.FirstValidMove). */
    function FirstPassable(from: Location, candidates: seq<Direction>): (r: Option<Direction>)
      reads grid
      requires Shaped()
      ensures r.None? <==> forall d :: d in candidates ==> !PassableStep(from, d)
      ensures r.Some? ==> exists i :: (0 <= i < |candidates| && candidates[i] == r.value
        && PassableStep(from, r.value)
        && forall j :: 0 <= j < i ==> !PassableStep(from, candidates[j]))
    {
      if candidates == [] then None
      else if PassableStep(from, candidates[0]) then Some(candidates[0])
      else
        var r := FirstPassable(from, candidates[1..]);
        assert candidates == [candidates[0]] + candidates[1..];
        if r.Some? then
          var i :| 0 <= i < |candidates[1..]| && candidates[1..][i] == r.value
            && PassableStep(from, r.value)
            && forall j :: 0 <= j < i ==> !PassableStep(from, candidates[1..][j]);
          assert candidates[i + 1] == r.value;
          assert forall j :: 0 <= j < i + 1 ==> !PassableStep(from, candidates[j]) by {
            forall j | 0 <= j < i + 1 ensures !PassableStep(from, candidates[j]) {
              if 0 < j { assert candidates[j] == candidates[1..][j - 1]; }
            }
          }
          r
        else
          r
    }
  }

  /** The value-based removal leaves every remaining location on the grid. */
  lemma RemoveFirstAtKeepsRange(s: seq<Location>, row: int, col: int, g: GameState)
    requires forall l :: l in s ==> g.InRange(l)
    ensures forall l :: l in RemoveFirstAt(s, row, col) ==> g.InRange(l)
  {
    var k := FirstAt(s, row, col);
    if k < |s| {
      assert forall l :: l in s[..k] + s[k + 1..] ==> l in s;
    }
  }

  /* ---------------------------------------------------------------------------
   * Properties of the geometry
   * ------------------------------------------------------------------------- */

  /** The distance is symmetric, zero exactly between equal coordinates, and at most half of each dimension. */
  lemma DistanceIsSymmetricAndBounded(s: GameState, a: Location, b: Location)
    requires s.Valid() && s.InRange(a) && s.InRange(b)
    ensures s.GetDistance(a, b) == s.GetDistance(b, a)
    ensures s.GetDistance(a, b) == 0 <==> LocationEquals(a, b)
    ensures 0 <= s.GetDistance(a, b) <= s.height / 2 + s.width / 2
  {
  }

  /** Neighbours across the edge: on a map ten wide, columns 0 and 9 are one step apart, not nine. */
  lemma DistanceWrapsAroundEdge(s: GameState, a: Location, b: Location)
    requires 0 < s.height && s.width == 10 && a.row == b.row && a.col == 0 && b.col == 9
    ensures s.GetDistance(a, b) == 1
  {
  }

  /** Row 0 going north lands on the last row; the last column going east lands on column 0. */
  lemma {:induction false} DestinationWrapsAtEdges(s: GameState, loc: Location)
    requires 0 < s.height && 0 < s.width
    ensures loc.row == 0 ==> s.DestRow(loc, North) == s.height - 1
    ensures loc.col == s.width - 1 ==> s.DestCol(loc, East) == 0
    ensures s.InRange(loc) ==> s.DestCol(loc, North) == loc.col && s.DestRow(loc, East) == loc.row
  {
    if loc.row == 0 {
      WrapStep(loc.row - 1, s.height);
    }
    if loc.col == s.width - 1 {
      WrapStep(loc.col + 1, s.width);
    }
    if s.InRange(loc) {
      WrapStep(loc.col, s.width);
      WrapStep(loc.row, s.height);
    }
  }

  /**
   * On a 20 by 20 map, from (0, 0) toward (0, 19) the only direction offered is
   * West, across the edge, one step away; East would take 19 steps.
   */
  lemma WestAcrossTheEdge(s: GameState, a: Location, b: Location)
    requires s.height == 20 && s.width == 20
    requires a.row == 0 && a.col == 0 && b.row == 0 && b.col == 19
    ensures s.GetDirection(a, b) == [West]
    ensures s.GetDistance(a, b) == 1
    ensures s.DestRow(a, West) == b.row && s.DestCol(a, West) == b.col
  {
    WrapStep(-1, 20);
    WrapStep(0, 20);
  }

  /** Equal coordinates give no direction at all. */
  lemma DirectionsToSameCellAreEmpty(s: GameState, a: Location, b: Location)
    requires LocationEquals(a, b)
    ensures s.GetDirection(a, b) == []
  {
  }

  /** How many directions one axis contributes: none, one, or two exactly at `|delta| == n / 2`. */
  function AxisCount(x1: int, x2: int, n: int): nat {
    if x1 == x2 then 0 else if Abs(x1 - x2) == n / 2 then 2 else 1
  }

  /**
   * GetDirection answers the row-axis directions first, then the column-axis
   * ones; an axis whose coordinates differ contributes one direction, or two
   * exactly when the difference is half the dimension (integer division).
   */
  lemma DirectionsPerAxis(s: GameState, a: Location, b: Location)
    requires 0 < s.height && 0 < s.width
    ensures var r := s.GetDirection(a, b);
      && |r| == AxisCount(a.row, b.row, s.height) + AxisCount(a.col, b.col, s.width)
      && forall i :: 0 <= i < |r| ==> (r[i].IsVertical() <==> i < AxisCount(a.row, b.row, s.height))
  {
    var rows := AxisDirections(a.row, b.row, s.height, North, South);
    var cols := AxisDirections(a.col, b.col, s.width, West, East);
    assert |rows| == AxisCount(a.row, b.row, s.height);
    assert |cols| == AxisCount(a.col, b.col, s.width);
    assert s.GetDirection(a, b) == rows + cols;
    assert forall i :: 0 <= i < |rows| ==> rows[i].IsVertical();
    assert forall i :: 0 <= i < |cols| ==> !cols[i].IsVertical();
  }

  /** One axis of the approach lemma below. */
  lemma {:induction false} AxisStepApproaches(x1: int, x2: int, n: int, lower: Direction, higher: Direction, d: Direction)
    requires 0 < n && 0 <= x1 < n && 0 <= x2 < n
    requires lower != higher && d in AxisDirections(x1, x2, n, lower, higher)
    ensures var next := Wrap(x1 + (if d == lower then -1 else 1), n);
      || AxisDistance(next, x2, n) == AxisDistance(x1, x2, n) - 1
      || (AxisDistance(next, x2, n) == AxisDistance(x1, x2, n) && n % 2 == 1 && Abs(x1 - x2) == n / 2)
  {
    WrapStep(x1 + (if d == lower then -1 else 1), n);
  }

  /**
   * No direction that GetDirection offers leads away from the target: a step
   * shortens the distance by one, except on an axis of odd length whose
   * difference is exactly half the length rounded down, where the wrap-around
   * direction leaves the distance unchanged.
   */
  lemma {:induction false} StepTowardTargetNeverMovesAway(s: GameState, a: Location, b: Location, d: Direction)
    requires 0 < s.height && 0 < s.width && s.InRange(a) && s.InRange(b)
    requires d in s.GetDirection(a, b)
    ensures var after := s.CellDistance(s.DestRow(a, d), s.DestCol(a, d), b.row, b.col);
      || after == s.GetDistance(a, b) - 1
      || (&& after == s.GetDistance(a, b)
          && if d.IsVertical() then s.height % 2 == 1 && Abs(a.row - b.row) == s.height / 2
             else s.width % 2 == 1 && Abs(a.col - b.col) == s.width / 2)
  {
    var rows := AxisDirections(a.row, b.row, s.height, North, South);
    var cols := AxisDirections(a.col, b.col, s.width, West, East);
    assert s.GetDirection(a, b) == rows + cols;
    if d in rows {
      RowStepApproaches(s, a, b, d);
    } else {
      ColStepApproaches(s, a, b, d);
    }
  }

  /** The row-axis half of StepTowardTargetNeverMovesAway: the column stays, the row distance does not grow. */
  lemma RowStepApproaches(s: GameState, a: Location, b: Location, d: Direction)
    requires 0 < s.height && 0 < s.width && s.InRange(a) && s.InRange(b)
    requires d in AxisDirections(a.row, b.row, s.height, North, South)
    ensures d.IsVertical() && s.DestCol(a, d) == a.col
    ensures var after := AxisDistance(s.DestRow(a, d), b.row, s.height);
      || after == AxisDistance(a.row, b.row, s.height) - 1
      || (after == AxisDistance(a.row, b.row, s.height) && s.height % 2 == 1 && Abs(a.row - b.row) == s.height / 2)
  {
    AxisStepApproaches(a.row, b.row, s.height, North, South, d);
    WrapStep(a.col, s.width);
  }

  /** The column-axis half of StepTowardTargetNeverMovesAway: the row stays, the column distance does not grow. */
  lemma ColStepApproaches(s: GameState, a: Location, b: Location, d: Direction)
    requires 0 < s.height && 0 < s.width && s.InRange(a) && s.InRange(b)
    requires d in AxisDirections(a.col, b.col, s.width, West, East)
    ensures !d.IsVertical() && s.DestRow(a, d) == a.row
    ensures var after := AxisDistance(s.DestCol(a, d), b.col, s.width);
      || after == AxisDistance(a.col, b.col, s.width) - 1
      || (after == AxisDistance(a.col, b.col, s.width) && s.width % 2 == 1 && Abs(a.col - b.col) == s.width / 2)
  {
    AxisStepApproaches(a.col, b.col, s.width, West, East, d);
    WrapStep(a.row, s.height);
  }

  /**
   * The exception above in action: five rows, target two rows below. North is
   * offered first and keeps the distance at 2; from row 4 South is offered first
   * and leads back to row 0.
   */
  lemma OddAxisHalfwayTieCycles()
    ensures AxisDirections(0, 2, 5, North, South) == [North, South]
    ensures Wrap(0 + North.Row(), 5) == 4
    ensures AxisDirections(4, 2, 5, North, South) == [South, North]
    ensures Wrap(4 + South.Row(), 5) == 0
    ensures AxisDistance(0, 2, 5) == 2 && AxisDistance(4, 2, 5) == 2
  {
    WrapStep(-1, 5);
    WrapStep(5, 5);
  }

  /* ---------------------------------------------------------------------------
   * Properties of the food list removal
   * ------------------------------------------------------------------------- */

  /** With value comparison, adding a food and removing it again gives back the list. */
  lemma {:induction false} RemoveFirstAtUndoesAppend(s: seq<Location>, x: Location)
    requires !Covers(s, x.row, x.col)
    ensures RemoveFirstAt(s + [x], x.row, x.col) == s
  {
    var t := s + [x];
    assert t[|s|] == x;
    assert Covers(t, x.row, x.col);
    var k := FirstAt(t, x.row, x.col);
    assert k == |s|;
    assert t[..k] == s && t[k + 1..] == [];
  }

  /**
   * RemoveFood as written keeps a food in the list after it has been removed:
   * on a one-cell map, adding food at (0, 0) and removing it leaves the cell land
   * but FoodTiles still lists (0, 0).
   */
  method RemoveFoodLeavesStaleEntry() returns (s: GameState)
    ensures s.Valid() && s.height == 1 && s.width == 1
    ensures s.grid[0, 0] == Land
    ensures |s.foodTiles| == 1 && s.foodTiles[0].row == 0 && s.foodTiles[0].col == 0
  {
    s := new GameState(1, 1, 1000, 3000, 55, 5, 1);
    s.AddFood(0, 0);
    s.RemoveFood(0, 0);
  }

  /** RemoveFoodByValue on the same input empties the list again. */
  method RemoveFoodByValueClearsEntry() returns (s: GameState)
    ensures s.Valid() && s.height == 1 && s.width == 1
    ensures s.grid[0, 0] == Land
    ensures s.foodTiles == []
  {
    s := new GameState(1, 1, 1000, 3000, 55, 5, 1);
    s.AddFood(0, 0);
    RemoveFirstAtUndoesAppend([], s.foodTiles[0]);
    s.RemoveFoodByValue(0, 0);
  }

  /* ---------------------------------------------------------------------------
   * Properties of the time budget
   * ------------------------------------------------------------------------- */

  /** As written, the reading repeats every second: a whole second of extra time subtracts nothing. */
  lemma {:induction false} TimeRemainingAsWrittenIgnoresWholeSeconds(s: GameState, elapsedMs: nat)
    ensures s.TimeRemainingAsWritten(elapsedMs + 1000) == s.TimeRemainingAsWritten(elapsedMs)
  {
    ModOfMultiple(elapsedMs + 1000, 1000, elapsedMs / 1000 + 1, elapsedMs % 1000);
  }

  /**
   * With a 500 ms turn, one full second into the turn the reading as written is
   * back at 500, so the bot's 10 ms guard does not stop it; the intended reading
   * is -500.
   */
  lemma TimeRemainingAsWrittenMissesOverrun(s: GameState)
    requires s.turnTime == 500
    ensures s.TimeRemainingAsWritten(1000) == 500
    ensures s.TimeRemaining(1000) == -500 && s.TimeRemaining(1000) < 10
  {
  }
}
