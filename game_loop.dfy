/** The per-frame simulation of the catching game (components/Game.tsx). */
module GameLoop {
  import opened Types
  import opened Constants

  datatype Direction = Left | Right

  /** Horizontal distance the player moves per frame while a direction is held. */
  const MOVE_SPEED: real := 1.5
  /** Rightmost player position, so that the player box stays inside the field. */
  const MAX_PLAYER_X: real := 100.0 - PLAYER_SIZE
  /** Fixed top edge and height of the player's hitbox. */
  const PLAYER_TOP: real := 80.0
  const PLAYER_HEIGHT: real := 15.0
  /** New items start just above the field. */
  const SPAWN_Y: real := -10.0
  /** Items at or below this height have left the field. */
  const EXIT_Y: real := 110.0
  /** Probability that a spawned item is a bomb. */
  const BOMB_CHANCE: real := 0.2
  /** Beyond this score the fall speed no longer grows. */
  const SPEED_SCORE_CAP: nat := 50

  function Abs(r: real): real
  {
    if r < 0.0 then -r else r
  }

  // ---------------------------------------------------------------------------
  // Player movement

  /** The position after one move in direction `d`, clamped to the field. */
  function Moved(x: real, d: Direction): (r: real)
    ensures 0.0 <= r <= MAX_PLAYER_X
    ensures var target := if d == Left then x - MOVE_SPEED else x + MOVE_SPEED;
      && (0.0 <= target <= MAX_PLAYER_X ==> r == target)
      && (target < 0.0 ==> r == 0.0)
      && (target > MAX_PLAYER_X ==> r == MAX_PLAYER_X)
  {
    var next := if d == Left then x - MOVE_SPEED else x + MOVE_SPEED;
    if next < 0.0 then 0.0 else if next > MAX_PLAYER_X then MAX_PLAYER_X else next
  }

  /** A frame's input: the left move, if held, is applied before the right one. */
  function Steered(x: real, leftHeld: bool, rightHeld: bool): real
  {
    var afterLeft := if leftHeld then Moved(x, Left) else x;
    if rightHeld then Moved(afterLeft, Right) else afterLeft
  }

  /** With a key held, steering always ends inside the field. */
  lemma SteeredInField(x: real, leftHeld: bool, rightHeld: bool)
    requires leftHeld || rightHeld
    ensures 0.0 <= Steered(x, leftHeld, rightHeld) <= MAX_PLAYER_X
  {
  }

  /**
   * With both keys held the two clamped moves do not cancel out near the left wall:
   * the player ends at the larger of its position and one step.
   */
  lemma BothKeysHeld(x: real)
    requires 0.0 <= x <= MAX_PLAYER_X
    ensures Steered(x, true, true) == if x < MOVE_SPEED then MOVE_SPEED else x
    ensures Steered(0.0, true, true) == 1.5
  {
  }

  // ---------------------------------------------------------------------------
  // Spawning

  /**
   * The random draws one spawn consumes, each as returned by `Math.random`, and the
   * identifier built from the clock.
   */
  datatype SpawnDraws = SpawnDraws(bomb: real, id: real, x: real, icon: real, jitter: real)

  predicate ValidDraws(d: SpawnDraws)
  {
    && 0.0 <= d.bomb < 1.0
    && 0.0 <= d.x < 1.0
    && 0.0 <= d.icon < 1.0
    && 0.0 <= d.jitter < 1.0
  }

  /** The time gate: strictly more than the spawn interval since the last spawn. */
  predicate SpawnDue(time: real, lastSpawnTime: real)
  {
    time - lastSpawnTime > SPAWN_RATE_MS
  }

  /** Fall speed of a new item: a base, a score bonus capped at 50 points, and jitter. */
  function SpawnSpeed(score: nat, jitter: real): (v: real)
    requires 0.0 <= jitter < 1.0
    ensures 0.4 <= v < 1.6
  {
    var capped := if score < SPEED_SCORE_CAP then score else SPEED_SCORE_CAP;
    0.4 + capped as real * 0.02 + jitter * 0.2
  }

  /** A higher score never spawns slower items. */
  lemma SpawnSpeedMonotone(s1: nat, s2: nat, jitter: real)
    requires s1 <= s2 && 0.0 <= jitter < 1.0
    ensures SpawnSpeed(s1, jitter) <= SpawnSpeed(s2, jitter)
  {
  }

  /** Above 50 points the score no longer matters to the speed. */
  lemma SpawnSpeedCapped(score: nat, jitter: real)
    requires SPEED_SCORE_CAP <= score && 0.0 <= jitter < 1.0
    ensures SpawnSpeed(score, jitter) == SpawnSpeed(SPEED_SCORE_CAP, jitter)
  {
  }

  /** The item invariant: inside the field horizontally, a bounded speed, not yet gone. */
  predicate WellFormed(item: FallingItem)
  {
    && 0.0 <= item.x < 100.0 - ITEM_SIZE
    && 0.4 <= item.speed < 1.6
    && SPAWN_Y <= item.y < EXIT_Y
  }

  /** The item a spawn creates from the current score and the draws. */
  function NewItem(score: nat, d: SpawnDraws): (item: FallingItem)
    requires ValidDraws(d)
    ensures WellFormed(item) && item.y == SPAWN_Y && item.id == d.id
    ensures item.kind == Bomb <==> d.bomb < BOMB_CHANCE
    ensures item.kind == Bomb ==> item.icon == BOMB_ITEM
    ensures item.kind == Food ==> item.icon in FOOD_ITEMS
    ensures item.speed == SpawnSpeed(score, d.jitter)
  {
    var isBomb := d.bomb < BOMB_CHANCE;
    var glyph := (d.icon * |FOOD_ITEMS| as real).Floor;
    FallingItem(
      d.id,
      d.x * (100.0 - ITEM_SIZE),
      SPAWN_Y,
      if isBomb then Bomb else Food,
      if isBomb then BOMB_ITEM else FOOD_ITEMS[glyph],
      SpawnSpeed(score, d.jitter))
  }

  // ---------------------------------------------------------------------------
  // Falling, collision and removal

  /** One frame of falling: the item moves down by its own speed and nothing else changes. */
  function Advance(item: FallingItem): FallingItem
  {
    item.(y := item.y + item.speed)
  }

  /** Strict overlap of the player box (px, 80, 18, 15) with the item box (x, y, 10, 10). */
  predicate Colliding(px: real, item: FallingItem)
  {
    && px < item.x + ITEM_SIZE
    && px + PLAYER_SIZE > item.x
    && PLAYER_TOP < item.y + ITEM_SIZE
    && PLAYER_HEIGHT + PLAYER_TOP > item.y
  }

  /** Boxes that only share an edge do not collide. */
  lemma TouchingIsNotColliding(px: real, item: FallingItem)
    requires item.x == px + PLAYER_SIZE || item.x + ITEM_SIZE == px
      || item.y + ITEM_SIZE == PLAYER_TOP || item.y == PLAYER_TOP + PLAYER_HEIGHT
    ensures !Colliding(px, item)
  {
  }

  /** Food close enough to the player to make it open its mouth; cosmetic only. */
  predicate NearFood(px: real, item: FallingItem)
  {
    item.kind == Food && item.y > 60.0 && item.y < 90.0 && Abs(item.x - px) < 20.0
  }

  /** What one frame does to an item. */
  datatype Fate = Eaten | Exploded | Kept | Dropped

  /** The fate of an item whose fall this frame ends next to a player at `px`. */
  function FateOf(px: real, item: FallingItem): Fate
  {
    var moved := Advance(item);
    if Colliding(px, moved) then (if moved.kind == Bomb then Exploded else Eaten)
    else if moved.y < EXIT_Y then Kept
    else Dropped
  }

  /** The indices of the items in `s` whose fate is `f`, in increasing order. */
  function Positions(px: real, s: seq<FallingItem>, f: Fate): (r: seq<nat>)
    ensures forall k :: 0 <= k < |r| ==> r[k] < |s| && FateOf(px, s[r[k]]) == f
    ensures forall k, l :: 0 <= k < l < |r| ==> r[k] < r[l]
    ensures forall j :: 0 <= j < |s| && FateOf(px, s[j]) == f ==> j in r
    decreases |s|
  {
    if s == [] then []
    else
      var init := s[..|s| - 1];
      Positions(px, init, f) + (if FateOf(px, s[|s| - 1]) == f then [|s| - 1] else [])
  }

  /** The items left after a frame: each kept item, fallen by one step, in array order. */
  function Survivors(px: real, s: seq<FallingItem>): seq<FallingItem>
    decreases |s|
  {
    if s == [] then []
    else
      var init, last := s[..|s| - 1], s[|s| - 1];
      Survivors(px, init) + (if FateOf(px, last) == Kept then [Advance(last)] else [])
  }

  /** The number of food items eaten in a frame. */
  function EatenCount(px: real, s: seq<FallingItem>): nat
    decreases |s|
  {
    if s == [] then 0
    else
      var init, last := s[..|s| - 1], s[|s| - 1];
      EatenCount(px, init) + (if FateOf(px, last) == Eaten then 1 else 0)
  }

  /** The scores passed to the game-over handler in a frame, one per bomb hit, in array order. */
  function Reports(px: real, s: seq<FallingItem>, score: nat): seq<nat>
    decreases |s|
  {
    if s == [] then []
    else
      var init, last := s[..|s| - 1], s[|s| - 1];
      Reports(px, init, score) + (if FateOf(px, last) == Exploded then [score + EatenCount(px, init)] else [])
  }

  /** Some food item ends the frame near the player. */
  predicate NearbyFood(px: real, s: seq<FallingItem>)
  {
    exists j :: 0 <= j < |s| && NearFood(px, Advance(s[j]))
  }

  lemma PositionsSnoc(px: real, s: seq<FallingItem>, x: FallingItem, f: Fate)
    ensures Positions(px, s + [x], f) == Positions(px, s, f) + (if FateOf(px, x) == f then [|s|] else [])
  {
    assert (s + [x])[..|s|] == s;
  }

  /** What extending the scanned prefix by one item does to the frame's results. */
  lemma ScanStep(px: real, s: seq<FallingItem>, i: nat, score: nat)
    requires i < |s|
    ensures var fate := FateOf(px, s[i]);
      && Survivors(px, s[..i + 1]) == Survivors(px, s[..i]) + (if fate == Kept then [Advance(s[i])] else [])
      && EatenCount(px, s[..i + 1]) == EatenCount(px, s[..i]) + (if fate == Eaten then 1 else 0)
      && Reports(px, s[..i + 1], score)
        == Reports(px, s[..i], score) + (if fate == Exploded then [score + EatenCount(px, s[..i])] else [])
  {
    assert s[..i + 1][..i] == s[..i];
  }

  lemma NearbyStep(px: real, s: seq<FallingItem>, i: nat)
    requires i < |s|
    ensures NearbyFood(px, s[..i + 1]) == (NearbyFood(px, s[..i]) || NearFood(px, Advance(s[i])))
  {
    var next := s[..i + 1];
    if NearbyFood(px, next) && !NearFood(px, Advance(s[i])) {
      var j :| 0 <= j < |next| && NearFood(px, Advance(next[j]));
      assert s[..i][j] == next[j];
    }
    if NearbyFood(px, s[..i]) {
      var j :| 0 <= j < i && NearFood(px, Advance(s[..i][j]));
      assert next[j] == s[..i][j];
    }
    if NearFood(px, Advance(s[i])) {
      assert next[i] == s[i];
    }
  }

  /** The k-th survivor is the k-th kept item of the array, fallen by one step. */
  lemma {:induction false} SurvivorsArePositions(px: real, s: seq<FallingItem>)
    ensures |Survivors(px, s)| == |Positions(px, s, Kept)|
    ensures forall k :: 0 <= k < |Survivors(px, s)| ==>
      Survivors(px, s)[k] == Advance(s[Positions(px, s, Kept)[k]])
    decreases |s|
  {
    if s != [] {
      var init, last := s[..|s| - 1], s[|s| - 1];
      assert s == init + [last];
      SurvivorsArePositions(px, init);
      PositionsSnoc(px, init, last, Kept);
    }
  }

  /** The score gained in a frame is the number of items whose fate is to be eaten. */
  lemma {:induction false} EatenCountIsPositions(px: real, s: seq<FallingItem>)
    ensures EatenCount(px, s) == |Positions(px, s, Eaten)|
    decreases |s|
  {
    if s != [] {
      var init, last := s[..|s| - 1], s[|s| - 1];
      assert s == init + [last];
      EatenCountIsPositions(px, init);
      PositionsSnoc(px, init, last, Eaten);
    }
  }

  /**
   * The k-th report belongs to the k-th bomb hit in the array and carries the score at the
   * start of the frame plus the food eaten earlier in the array; the scan goes on after a bomb.
   */
  lemma {:induction false} ReportsArePositions(px: real, s: seq<FallingItem>, score: nat)
    ensures |Reports(px, s, score)| == |Positions(px, s, Exploded)|
    ensures forall k :: 0 <= k < |Reports(px, s, score)| ==>
      Reports(px, s, score)[k] == score + EatenCount(px, s[..Positions(px, s, Exploded)[k]])
    decreases |s|
  {
    if s != [] {
      var init, last := s[..|s| - 1], s[|s| - 1];
      assert s == init + [last];
      ReportsArePositions(px, init, score);
      PositionsSnoc(px, init, last, Exploded);
      var hits := Positions(px, s, Exploded);
      forall k | 0 <= k < |Reports(px, s, score)|
        ensures Reports(px, s, score)[k] == score + EatenCount(px, s[..hits[k]])
      {
        assert s[..hits[k]] == init[..hits[k]];
      }
    }
  }

  /** Eating is cumulative along the array: a longer prefix has eaten at least as much. */
  lemma {:induction false} EatenCountMonotone(px: real, s: seq<FallingItem>, i: nat, j: nat)
    requires i <= j <= |s|
    ensures EatenCount(px, s[..i]) <= EatenCount(px, s[..j])
    decreases j - i
  {
    if i < j {
      EatenCountMonotone(px, s, i, j - 1);
      assert s[..j][..j - 1] == s[..j - 1];
    }
  }

  /** Every item has exactly one fate, so the four outcomes account for the whole array. */
  lemma {:induction false} FatesPartition(px: real, s: seq<FallingItem>)
    ensures |Survivors(px, s)| + EatenCount(px, s) + |Reports(px, s, 0)| + |Positions(px, s, Dropped)| == |s|
    decreases |s|
  {
    if s != [] {
      var init, last := s[..|s| - 1], s[|s| - 1];
      assert s == init + [last];
      FatesPartition(px, init);
      PositionsSnoc(px, init, last, Dropped);
    }
  }

  /**
   * An item is still there after the frame exactly when, having fallen, it neither
   * touches the player nor has passed the bottom exit.
   */
  lemma SurvivorIff(px: real, s: seq<FallingItem>, j: nat)
    requires j < |s|
    ensures Advance(s[j]) in Survivors(px, s) <==> !Colliding(px, Advance(s[j])) && Advance(s[j]).y < EXIT_Y
  {
    SurvivorsArePositions(px, s);
    var kept := Positions(px, s, Kept);
    var out := Survivors(px, s);
    if Advance(s[j]) in out {
      var k :| 0 <= k < |out| && out[k] == Advance(s[j]);
      assert Advance(s[kept[k]]) == Advance(s[j]);
      assert s[kept[k]] == s[j];
    }
    if FateOf(px, s[j]) == Kept {
      var k :| 0 <= k < |kept| && kept[k] == j;
      assert out[k] == Advance(s[j]);
    }
  }

  /** Survivors keep the item invariant: they fell, but are still above the exit. */
  lemma SurvivorsWellFormed(px: real, s: seq<FallingItem>)
    requires forall j :: 0 <= j < |s| ==> WellFormed(s[j])
    ensures forall k :: 0 <= k < |Survivors(px, s)| ==> WellFormed(Survivors(px, s)[k])
  {
    SurvivorsArePositions(px, s);
  }

  /**
   * The reported scores lie between the score at the start of the frame and the score
   * at its end, and never decrease along the array.
   */
  lemma ReportsBounded(px: real, s: seq<FallingItem>, score: nat)
    ensures forall k :: 0 <= k < |Reports(px, s, score)| ==>
      score <= Reports(px, s, score)[k] <= score + EatenCount(px, s)
    ensures forall k, l :: 0 <= k < l < |Reports(px, s, score)| ==>
      Reports(px, s, score)[k] <= Reports(px, s, score)[l]
  {
    ReportsArePositions(px, s, score);
    var hits := Positions(px, s, Exploded);
    var reports := Reports(px, s, score);
    assert s[..|s|] == s;
    forall k | 0 <= k < |reports|
      ensures reports[k] <= score + EatenCount(px, s)
    {
      EatenCountMonotone(px, s, hits[k], |s|);
    }
    forall k, l | 0 <= k < l < |reports|
      ensures reports[k] <= reports[l]
    {
      EatenCountMonotone(px, s, hits[k], hits[l]);
    }
  }

  /** No food eaten means no point scored, whatever else the frame did. */
  lemma NoFoodNoScore(px: real, s: seq<FallingItem>)
    ensures EatenCount(px, s) == 0 <==> forall j :: 0 <= j < |s| ==> FateOf(px, s[j]) != Eaten
  {
    EatenCountIsPositions(px, s);
    var eaten := Positions(px, s, Eaten);
    if |eaten| > 0 {
      assert FateOf(px, s[eaten[0]]) == Eaten;
    }
  }

  /** A food item falling onto the player is eaten and scores one point. */
  lemma FoodOnPlayerIsEaten(px: real, food: FallingItem, score: nat)
    requires food.kind == Food && Colliding(px, Advance(food))
    ensures Survivors(px, [food]) == [] && EatenCount(px, [food]) == 1
    ensures Reports(px, [food], score) == []
  {
    assert [food][..0] == [];
  }

  /** A bomb behind an eaten food item in the array reports the score including that food. */
  lemma FoodBeforeBombCounts(px: real, food: FallingItem, bomb: FallingItem, score: nat)
    requires food.kind == Food && Colliding(px, Advance(food))
    requires bomb.kind == Bomb && Colliding(px, Advance(bomb))
    ensures Reports(px, [food, bomb], score) == [score + 1]
    ensures EatenCount(px, [food, bomb]) == 1 && Survivors(px, [food, bomb]) == []
  {
    FoodOnPlayerIsEaten(px, food, score);
    assert [food, bomb][..1] == [food];
  }

  // ---------------------------------------------------------------------------
  // The game component's loop state

  class Game {
    var playerX: real
    var items: seq<FallingItem>
    var score: nat
    var lastSpawnTime: real
    var isPaused: bool
    var isChomping: bool

    ghost predicate Valid()
      reads this
    {
      && 0.0 <= playerX <= MAX_PLAYER_X
      && forall j :: 0 <= j < |items| ==> WellFormed(items[j])
    }

    constructor ()
      ensures Valid()
      ensures playerX == 50.0 && items == [] && score == 0 && lastSpawnTime == 0.0
      ensures !isPaused && !isChomping
    {
      playerX := 50.0;
      items := [];
      score := 0;
      lastSpawnTime := 0.0;
      isPaused := false;
      isChomping := false;
    }

    method MovePlayer(d: Direction)
      modifies this`playerX
      ensures playerX == Moved(old(playerX), d)
    {
      var next := playerX;
      if d == Left { next := next - MOVE_SPEED; }
      if d == Right { next := next + MOVE_SPEED; }
      if next < 0.0 { next := 0.0; }
      if next > MAX_PLAYER_X { next := MAX_PLAYER_X; }
      playerX := next;
    }

    /** The pause button flips the flag; the overlay's resume button clears it. */
    method TogglePause()
      modifies this`isPaused
      ensures isPaused == !old(isPaused)
    {
      isPaused := !isPaused;
    }

    method Resume()
      modifies this`isPaused
      ensures !isPaused
    {
      isPaused := false;
    }

    /** Appends one new item when the spawn interval has passed, and restarts the interval. */
    method SpawnIfDue(time: real, draws: SpawnDraws)
      requires ValidDraws(draws)
      requires forall j :: 0 <= j < |items| ==> WellFormed(items[j])
      modifies this`items, this`lastSpawnTime
      ensures forall j :: 0 <= j < |items| ==> WellFormed(items[j])
      ensures SpawnDue(time, old(lastSpawnTime)) ==>
        items == old(items) + [NewItem(score, draws)] && lastSpawnTime == time
      ensures !SpawnDue(time, old(lastSpawnTime)) ==>
        items == old(items) && lastSpawnTime == old(lastSpawnTime)
    {
      if time - lastSpawnTime > SPAWN_RATE_MS {
        items := items + [NewItem(score, draws)];
        lastSpawnTime := time;
      }
    }

    /** Moves every item down, then drops the ones that hit the player or left the field. */
    method AdvanceItems() returns (reports: seq<nat>, nearbyFood: bool)
      requires forall j :: 0 <= j < |items| ==> WellFormed(items[j])
      modifies this`items, this`score
      ensures forall j :: 0 <= j < |items| ==> WellFormed(items[j])
      ensures items == Survivors(playerX, old(items))
      ensures score == old(score) + EatenCount(playerX, old(items))
      ensures reports == Reports(playerX, old(items), old(score))
      ensures nearbyFood == NearbyFood(playerX, old(items))
    {
      var live := items;
      var kept: seq<FallingItem> := [];
      reports, nearbyFood := [], false;
      var i := 0;
      while i < |live|
        invariant 0 <= i <= |live|
        invariant kept == Survivors(playerX, live[..i])
        invariant score == old(score) + EatenCount(playerX, live[..i])
        invariant reports == Reports(playerX, live[..i], old(score))
        invariant nearbyFood == NearbyFood(playerX, live[..i])
      {
        ScanStep(playerX, live, i, old(score));
        NearbyStep(playerX, live, i);
        var item := live[i];
        item := item.(y := item.y + item.speed);
        if item.kind == Food && item.y > 60.0 && item.y < 90.0 && Abs(item.x - playerX) < 20.0 {
          nearbyFood := true;
        }
        var isColliding :=
          && playerX < item.x + ITEM_SIZE
          && playerX + PLAYER_SIZE > item.x
          && PLAYER_TOP < item.y + ITEM_SIZE
          && PLAYER_HEIGHT + PLAYER_TOP > item.y;
        assert item == Advance(live[i]) && isColliding == Colliding(playerX, item);
        if isColliding {
          if item.kind == Bomb {
            assert FateOf(playerX, live[i]) == Exploded;
            reports := reports + [score];
          } else {
            assert FateOf(playerX, live[i]) == Eaten;
            score := score + 1;
          }
        } else if item.y < EXIT_Y {
          assert FateOf(playerX, live[i]) == Kept;
          kept := kept + [item];
        } else {
          assert FateOf(playerX, live[i]) == Dropped;
        }
        i := i + 1;
      }
      assert live[..i] == live;
      SurvivorsWellFormed(playerX, live);
      items := kept;
    }

    /**
     * One animation frame at `time`: input, then at most one spawn, then falling and
     * collisions. Returns the scores passed to the game-over handler during the frame.
     */
    method Tick(time: real, leftHeld: bool, rightHeld: bool, draws: SpawnDraws) returns (reports: seq<nat>)
      requires Valid() && ValidDraws(draws)
      modifies this
      ensures Valid() && isPaused == old(isPaused)
      ensures old(isPaused) ==>
        && reports == [] && playerX == old(playerX) && items == old(items) && score == old(score)
        && lastSpawnTime == old(lastSpawnTime) && isChomping == old(isChomping)
      ensures !old(isPaused) ==>
        var px := Steered(old(playerX), leftHeld, rightHeld);
        var due := SpawnDue(time, old(lastSpawnTime));
        var live := if due then old(items) + [NewItem(old(score), draws)] else old(items);
        && playerX == px
        && lastSpawnTime == (if due then time else old(lastSpawnTime))
        && items == Survivors(px, live)
        && score == old(score) + EatenCount(px, live)
        && reports == Reports(px, live, old(score))
        && isChomping == NearbyFood(px, live)
    {
      if isPaused {
        reports := [];
        return;
      }
      if leftHeld { MovePlayer(Left); }
      if rightHeld { MovePlayer(Right); }
      assert playerX == Steered(old(playerX), leftHeld, rightHeld);
      SpawnIfDue(time, draws);
      reports, isChomping := AdvanceItems();
    }
  }
}
