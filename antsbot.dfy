/*
 * The bot itself (the C# namespace `AntsBot`): the multi-turn goal record
 * (Goal.cs) and the per-turn targeting loop (MyBot.cs).
 */
module AntsBot {
  import opened Ants

  /**
   * A unit's commitment to a path. `Strategy` is the bot's strategy tag, whose
   * definition is not part of this model. `Termination` is the type of the
   * termination test (a `Func<GameState, bool>` in the source); a goal only
   * stores it, so the model keeps it as an uninterpreted value.
   */
  class Goal<Strategy, Termination> {
    const startPoint: Location
    var currentPoint: Location
    var currentStrategy: Option<Strategy>
    /** The path as given, from the start cell to the end cell. */
    const startPath: seq<Tile>
    /** The queue of cells still to walk, front first. */
    var currentPath: seq<Tile>
    var currentStep: int
    const isTerminated: Termination
    var antExists: bool

    /**
     * The location of the last tile of the start path. It reads no mutable
     * field, so taking steps off `currentPath` cannot change it.
     */
    function EndPoint(): (end: Location)
      requires startPath != []
      ensures end == startPath[|startPath| - 1].location
    {
      startPath[|startPath| - 1].location
    }

    /**
     * Copies the path into a queue and dequeues its first tile (the start cell).
     * The source's Dequeue throws on an empty queue, so the path must not be empty.
     */
    constructor (startPoint: Location, path: seq<Tile>, terminationFunc: Termination,
                 currentStrategy: Option<Strategy>)
      requires path != []
      ensures currentStep == 0 && antExists
      ensures |currentPath| == |path| - 1
      ensures forall i :: 0 <= i < |currentPath| ==> currentPath[i] == path[i + 1]
      ensures startPath == path
      ensures this.startPoint == startPoint && currentPoint == startPoint
      ensures EndPoint() == path[|path| - 1].location
      ensures currentPath != [] ==> currentPath[|currentPath| - 1].location == EndPoint()
      ensures isTerminated == terminationFunc && this.currentStrategy == currentStrategy
    {
      currentStep := 0;
      antExists := true;
      var queue := path;
      queue := queue[1..];
      currentPath := queue;
      startPath := path;
      this.startPoint := startPoint;
      currentPoint := startPoint;
      isTerminated := terminationFunc;
      this.currentStrategy := currentStrategy;
    }
  }

  /**
   * `foods.OrderBy(distance).First()`: the index of a food at the least distance
   * from `from`; OrderBy is a stable sort, so among equally near foods the one
   * listed first wins (see NearestFoodIsNearest).
   */
  function NearestFood(s: GameState, from: Location, foods: seq<Location>): (k: nat)
    requires foods != []
    ensures k < |foods|
  {
    if |foods| == 1 then 0
    else
      var k := NearestFood(s, from, foods[..|foods| - 1]);
      if s.GetDistance(from, foods[|foods| - 1]) < s.GetDistance(from, foods[k]) then |foods| - 1 else k
  }

  /** The chosen food is at the least distance, and every food listed before it is strictly farther. */
  lemma {:induction false} NearestFoodIsNearest(s: GameState, from: Location, foods: seq<Location>)
    requires foods != []
    ensures var k := NearestFood(s, from, foods);
      && (forall j :: 0 <= j < |foods| ==> s.GetDistance(from, foods[k]) <= s.GetDistance(from, foods[j]))
      && (forall j :: 0 <= j < k ==> s.GetDistance(from, foods[j]) > s.GetDistance(from, foods[k]))
  {
    if |foods| > 1 {
      var init := foods[..|foods| - 1];
      NearestFoodIsNearest(s, from, init);
      assert forall j :: 0 <= j < |init| ==> init[j] == foods[j];
    }
  }

  /** Least distance and earliest among the least determine the choice: any such index is NearestFood's. */
  lemma NearestFoodIsUnique(s: GameState, from: Location, foods: seq<Location>, k: nat)
    requires k < |foods|
    requires forall j :: 0 <= j < |foods| ==> s.GetDistance(from, foods[k]) <= s.GetDistance(from, foods[j])
    requires forall j :: 0 <= j < k ==> s.GetDistance(from, foods[j]) > s.GetDistance(from, foods[k])
    ensures NearestFood(s, from, foods) == k
  {
    NearestFoodIsNearest(s, from, foods);
  }

  /** The target an ant walks to this turn: its own, or else the nearest food. */
  function Retarget(s: GameState, foods: seq<Location>, from: Location, target: Location?): (t: Location?)
    requires target == null ==> foods != []
    ensures target != null ==> t == target
    ensures target == null ==> t in foods
  {
    if target != null then target else foods[NearestFood(s, from, foods)]
  }

  /** A target-less ant is given a food at the least distance from it. */
  lemma RetargetTakesNearestFood(s: GameState, foods: seq<Location>, from: Location)
    requires foods != []
    ensures forall f :: f in foods ==> s.GetDistance(from, Retarget(s, foods, from, null)) <= s.GetDistance(from, f)
  {
    NearestFoodIsNearest(s, from, foods);
  }

  /** How the targeting loop ended: every ant handled, out of time before ant `at`, or no food for ant `at`. */
  datatype TurnOutcome = AllHandled | OutOfTime(at: nat) | NoFood(at: nat)
  {
    /** The number of ants that were handled. */
    function Handled(ants: nat): nat {
      match this
      case AllHandled => ants
      case OutOfTime(at) => at
      case NoFood(at) => at
    }
  }

  /** The targets of a list of ants, in order. */
  function Targets(ants: seq<AntLoc>): (ts: seq<Location?>)
    reads ants
    ensures |ts| == |ants|
    ensures forall i :: 0 <= i < |ants| ==> ts[i] == ants[i].target
  {
    seq(|ants|, i reads ants requires 0 <= i < |ants| => ants[i].target)
  }

  /** The order line of one ant, as a list of zero or one line. */
  function OneOrder(from: Location, move: Option<Direction>): (orders: seq<Order>)
    requires move.Some? ==> move.value.IsConstant()
    ensures |orders| == if move.Some? then 1 else 0
    ensures move.Some? ==> (orders[0].row == from.row && orders[0].col == from.col
      && Aim(orders[0].dir) == move)
  {
    match move
    case None => []
    case Some(d) => [OrderLine(from, d)]
  }

  /** The orders an ant at `from` walking to `target` issues this turn. */
  function AntOrders(s: GameState, from: Location, target: Location?): (orders: seq<Order>)
    reads s.grid
    requires s.Shaped()
    ensures |orders| <= 1
  {
    OneOrder(from, s.MoveOrder(from, target))
  }

  /** The orders that ants at `froms` walking to `targets` issue, in roster order. */
  function TurnOrders(s: GameState, froms: seq<Location>, targets: seq<Location?>): (orders: seq<Order>)
    reads s.grid
    requires s.Shaped() && |froms| == |targets|
    ensures |orders| <= |froms|
  {
    if froms == [] then []
    else
      var n := |froms| - 1;
      TurnOrders(s, froms[..n], targets[..n]) + AntOrders(s, froms[n], targets[n])
  }

  /** Adding one more ant at the end appends that ant's orders. */
  lemma TurnOrdersSnoc(s: GameState, froms: seq<Location>, targets: seq<Location?>, from: Location, target: Location?)
    requires s.Shaped() && |froms| == |targets|
    ensures TurnOrders(s, froms + [from], targets + [target])
      == TurnOrders(s, froms, targets) + AntOrders(s, from, target)
  {
    assert (froms + [from])[..|froms|] == froms;
    assert (targets + [target])[..|targets|] == targets;
  }

  /**
   * The state of doTurn after the first `i` ants were handled, for ants at
   * `froms` whose targets were `targets` when the turn started and are `now`,
   * with food list `foods`: each handled ant now holds its old target, or the
   * nearest food when it had none (so there was food); the other ants still
   * hold their old targets; and `orders` are the orders of the handled ants,
   * in roster order.
   */
  ghost predicate Progress(s: GameState, froms: seq<Location>, targets: seq<Location?>, now: seq<Location?>,
                           foods: seq<Location>, i: nat, orders: seq<Order>)
    reads s.grid
  {
    && s.Shaped()
    && Retargeted(s, froms, targets, now, foods, i)
    && orders == TurnOrders(s, froms[..i], now[..i])
  }

  /** The target part of Progress: the first `i` ants were retargeted, the others kept their targets. */
  ghost predicate Retargeted(s: GameState, froms: seq<Location>, targets: seq<Location?>, now: seq<Location?>,
                             foods: seq<Location>, i: nat)
  {
    && i <= |froms| == |targets| == |now|
    && (forall j :: 0 <= j < i ==>
          (targets[j] != null || foods != []) && now[j] == Retarget(s, foods, froms[j], targets[j]))
    && (forall j :: i <= j < |froms| ==> now[j] == targets[j])
  }

  /** Handling ant `i` (retargeting it to `t` and issuing `issued`) carries Progress from `i` to `i + 1`. */
  lemma ProgressStep(s: GameState, froms: seq<Location>, targets: seq<Location?>, now: seq<Location?>,
                     foods: seq<Location>, i: nat, orders: seq<Order>, t: Location?, issued: seq<Order>)
    requires Progress(s, froms, targets, now, foods, i, orders) && i < |froms|
    requires (targets[i] != null || foods != []) && t == Retarget(s, foods, froms[i], targets[i])
    requires issued == AntOrders(s, froms[i], t)
    ensures Progress(s, froms, targets, now[i := t], foods, i + 1, orders + issued)
  {
    RetargetedStep(s, froms, targets, now, foods, i, t);
    TurnOrdersStep(s, froms, now, i, t);
  }

  /** Retargeting ant `i` to `t` carries Retargeted from `i` to `i + 1`. */
  lemma RetargetedStep(s: GameState, froms: seq<Location>, targets: seq<Location?>, now: seq<Location?>,
                       foods: seq<Location>, i: nat, t: Location?)
    requires Retargeted(s, froms, targets, now, foods, i) && i < |froms|
    requires (targets[i] != null || foods != []) && t == Retarget(s, foods, froms[i], targets[i])
    ensures Retargeted(s, froms, targets, now[i := t], foods, i + 1)
  {
    var next := now[i := t];
    forall j | 0 <= j < i + 1
      ensures (targets[j] != null || foods != []) && next[j] == Retarget(s, foods, froms[j], targets[j])
    {
      if j < i {
        assert next[j] == now[j];
      }
    }
    forall j | i + 1 <= j < |froms|
      ensures next[j] == targets[j]
    {
      assert next[j] == now[j];
    }
  }

  /** The orders of the first `i + 1` ants, after ant `i` took target `t`, extend those of the first `i`. */
  lemma TurnOrdersStep(s: GameState, froms: seq<Location>, now: seq<Location?>, i: nat, t: Location?)
    requires s.Shaped() && i < |froms| == |now|
    ensures TurnOrders(s, froms[..i + 1], now[i := t][..i + 1])
      == TurnOrders(s, froms[..i], now[..i]) + AntOrders(s, froms[i], t)
  {
    var next := now[i := t];
    assert next[..i] == now[..i];
    assert next[..i + 1] == next[..i] + [t];
    assert froms[..i + 1] == froms[..i] + [froms[i]];
    TurnOrdersSnoc(s, froms[..i], now[..i], froms[i], t);
  }

  /**
   * MyBot.doTurn: goes through my ants in roster order. Before each ant it reads
   * the time left (`remaining[i]` before ant `i`) and stops when less than 10 ms
   * are left. An ant with a target moves toward it; an ant without one first
   * takes the nearest food as its target, and when there is no food the LINQ
   * `First()` throws, which ends the turn. Orders already issued stand.
   */
  method DoTurn(s: GameState, remaining: seq<int>) returns (orders: seq<Order>, outcome: TurnOutcome)
    requires s.Valid() && |remaining| == |s.myAnts|
    modifies s.myAnts
    ensures outcome.Handled(|s.myAnts|) <= |s.myAnts|
    ensures forall j :: 0 <= j < outcome.Handled(|s.myAnts|) ==> remaining[j] >= 10
    ensures outcome.OutOfTime? ==> outcome.at < |s.myAnts| && remaining[outcome.at] < 10
    ensures outcome.NoFood? ==> (outcome.at < |s.myAnts| && remaining[outcome.at] >= 10
      && old(s.myAnts[outcome.at].target) == null && s.foodTiles == [])
    ensures Progress(s, Positions(s.myAnts), old(Targets(s.myAnts)), Targets(s.myAnts), s.foodTiles,
                     outcome.Handled(|s.myAnts|), orders)
  {
    var ants := s.myAnts;
    ghost var targets := Targets(ants);
    orders, outcome := TurnLoop(s, ants, targets, s.foodTiles, remaining);
  }

  /** The loop of doTurn over the roster `ants`, whose targets were `targets` and with food list `foods`. */
  method TurnLoop(s: GameState, ants: seq<AntLoc>, ghost targets: seq<Location?>, ghost foods: seq<Location>,
                  remaining: seq<int>) returns (orders: seq<Order>, outcome: TurnOutcome)
    requires Distinct(ants) && s.foodTiles == foods && |remaining| == |ants|
    requires Progress(s, Positions(ants), targets, Targets(ants), foods, 0, [])
    modifies ants
    ensures outcome.Handled(|ants|) <= |ants|
    ensures forall j :: 0 <= j < outcome.Handled(|ants|) ==> remaining[j] >= 10
    ensures outcome.OutOfTime? ==> outcome.at < |ants| && remaining[outcome.at] < 10
    ensures outcome.NoFood? ==> (outcome.at < |ants| && remaining[outcome.at] >= 10
      && targets[outcome.at] == null && foods == [])
    ensures Progress(s, Positions(ants), targets, Targets(ants), foods, outcome.Handled(|ants|), orders)
  {
    orders := [];
    outcome := AllHandled;
    var i := 0;
    while i < |ants|
      invariant 0 <= i <= |ants| && outcome == AllHandled
      invariant forall j :: 0 <= j < i ==> remaining[j] >= 10
      invariant Progress(s, Positions(ants), targets, Targets(ants), foods, i, orders)
    {
      if remaining[i] < 10 {
        outcome := OutOfTime(i);
        break;
      }
      assert forall j :: 0 <= j < i + 1 ==> remaining[j] >= 10;
      var issued, threw := Visit(s, ants, i, targets, foods, orders);
      if threw {
        outcome := NoFood(i);
        break;
      }
      orders := orders + issued;
      i := i + 1;
    }
    assert outcome.Handled(|ants|) == i;
  }

  /**
   * One pass of doTurn's loop body for ant `i`: only that ant's target can
   * change, and Progress moves on from `i` to `i + 1` unless it threw.
   */
  method Visit(s: GameState, ants: seq<AntLoc>, i: nat, ghost targets: seq<Location?>, ghost foods: seq<Location>,
               orders: seq<Order>) returns (issued: seq<Order>, threw: bool)
    requires Distinct(ants) && s.foodTiles == foods && i < |ants|
    requires Progress(s, Positions(ants), targets, Targets(ants), foods, i, orders)
    modifies ants[i]
    ensures threw <==> targets[i] == null && foods == []
    ensures threw ==> Targets(ants) == old(Targets(ants))
    ensures !threw ==> Progress(s, Positions(ants), targets, Targets(ants), foods, i + 1, orders + issued)
  {
    var ant := ants[i];
    ghost var now := Targets(ants);
    issued, threw := HandleAnt(s, ant);
    forall j | 0 <= j < |ants| && j != i
      ensures ants[j].target == now[j]
    {
      assert Apart(ants, j, i);
    }
    assert Targets(ants) == now[i := ant.target];
    if !threw {
      ProgressStep(s, Positions(ants), targets, now, foods, i, orders, ant.target, issued);
    }
  }

  /**
   * The loop body of doTurn for one ant that is reached in time: retarget it if
   * it has no target (`threw` when there is no food, so First() throws), then
   * let it move.
   */
  method HandleAnt(s: GameState, ant: AntLoc) returns (issued: seq<Order>, threw: bool)
    requires s.Shaped()
    modifies ant
    ensures threw <==> old(ant.target) == null && s.foodTiles == []
    ensures threw ==> ant.target == old(ant.target) && issued == []
    ensures !threw ==> (ant.target == Retarget(s, s.foodTiles, ant.at, old(ant.target))
      && issued == AntOrders(s, ant.at, ant.target))
  {
    issued := [];
    threw := false;
    if ant.target == null {
      if s.foodTiles == [] {
        threw := true;
        return;
      }
      ant.target := s.foodTiles[NearestFood(s, ant.at, s.foodTiles)];
    }
    var move := ant.Move(s);
    issued := OneOrder(ant.at, move);
  }

  /** The geometry of the turn below: from (0, 0), food at (0, 3) on a 1 by 5 map is reached by going west. */
  lemma {:induction false} WestToFood(s: GameState, from: Location, food: Location)
    requires s.Shaped() && s.height == 1 && s.width == 5 && s.grid[0, 4] == Land
    requires from.row == 0 && from.col == 0 && food.row == 0 && food.col == 3
    ensures AntOrders(s, from, food) == [Order(0, 0, 'w')]
  {
    assert s.GetDirection(from, food) == [West];
    WrapStep(-1, 5);
    WrapStep(0, 1);
    assert s.PassableStep(from, West);
    assert s.FirstPassable(from, [West]) == Some(West);
  }

  /** The state of the turn below: my ant at (0, 0) without a target and one food at (0, 3), on a 1 by 5 map. */
  method OneAntOneFood() returns (s: GameState)
    ensures s.Valid() && fresh(s.myAnts[..])
    ensures s.height == 1 && s.width == 5 && s.grid[0, 4] == Land
    ensures |s.myAnts| == 1 && s.myAnts[0].at.row == 0 && s.myAnts[0].at.col == 0 && s.myAnts[0].target == null
    ensures |s.foodTiles| == 1 && s.foodTiles[0].row == 0 && s.foodTiles[0].col == 3
  {
    s := new GameState(5, 1, 500, 3000, 55, 5, 1);
    s.AddAnt(0, 0, 0);
    s.AddFood(0, 3);
  }

  /**
   * One turn from start to finish in that state: the ant takes the only food as
   * its target, and since three columns east is farther than two columns west
   * around the edge, it walks west.
   */
  method OneAntWalksWestToFood() returns (s: GameState, orders: seq<Order>, outcome: TurnOutcome)
    ensures outcome == AllHandled
    ensures |s.myAnts| == 1 && |s.foodTiles| == 1 && s.myAnts[0].target == s.foodTiles[0]
    ensures orders == [Order(0, 0, 'w')]
  {
    s := OneAntOneFood();
    var ant := s.myAnts[0];
    var food := s.foodTiles[0];
    assert Targets(s.myAnts) == [null];
    orders, outcome := DoTurn(s, [100]);
    assert Positions(s.myAnts) == [ant.at];
    OneAntTurn(s, ant.at, food, Targets(s.myAnts), orders);
  }

  /** What Progress says after the turn above: the ant's target is the food and the one order is `o 0 0 w`. */
  lemma OneAntTurn(s: GameState, from: Location, food: Location, now: seq<Location?>, orders: seq<Order>)
    requires s.Shaped() && s.height == 1 && s.width == 5 && s.grid[0, 4] == Land
    requires from.row == 0 && from.col == 0 && food.row == 0 && food.col == 3
    requires Progress(s, [from], [null], now, [food], 1, orders)
    ensures now == [food] && orders == [Order(0, 0, 'w')]
  {
    assert now[0] == Retarget(s, [food], from, null) == food;
    assert [from][..1] == [from] && now[..1] == now;
    WestToFood(s, from, food);
  }
}
