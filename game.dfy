/**
 * The rules of the colour-matching runner (game.js), as pure transitions on a
 * snapshot of the session state. Each function below is what one of the
 * game's handlers does to that state; the class in session.dfy performs the
 * same changes in place and is proved against these functions.
 */
module Game {

  /** The palette; colour indices range over its positions (game.js:2). */
  const COLORS: seq<int> := [0xff4757, 0x1e90ff, 0x2ed573]
  /** Where the player starts on the x axis (game.js:3). */
  const PLAYER_X: int := 80
  /** Speed of the player (forward) and of every obstacle (backward), per second (game.js:8). */
  const PLAYER_SPEED: int := 200
  /** How far ahead of the player a new obstacle appears (game.js:112). */
  const SPAWN_AHEAD: int := 400
  /** How far behind the player an obstacle may fall before it is destroyed (game.js:99). */
  const CLEANUP_BEHIND: int := 200

  /** An obstacle: its x position and its fixed colour index (game.js:111-119). */
  datatype Obstacle = Obstacle(x: int, colorIndex: int)

  /** The module-level globals of game.js:11-16 that the rules read and write. */
  datatype State = State(
    colorIndex: int,
    score: nat,
    gameOver: bool,
    playerX: int,
    obstacles: seq<Obstacle>)

  predicate ValidColor(c: int) {
    0 <= c < |COLORS|
  }

  /** Every colour index in the state, the player's and the obstacles', names a palette entry. */
  predicate Valid(s: State) {
    && ValidColor(s.colorIndex)
    && forall k :: 0 <= k < |s.obstacles| ==> ValidColor(s.obstacles[k].colorIndex)
  }

  /** The state `create` leaves behind (game.js:38-93), also reached by a restart. */
  function Initial(): (s: State)
    ensures Valid(s)
  {
    State(0, 0, false, PLAYER_X, [])
  }

  /** The palette entry after `c`, wrapping at the end (game.js:132). */
  function NextColor(c: int): (r: int)
    requires ValidColor(c)
    ensures ValidColor(r) && r != c
    ensures r == c + 1 || (c == |COLORS| - 1 && r == 0)
  {
    (c + 1) % |COLORS|
  }

  /** `changeColor` (game.js:129-134): a tap cycles the player's colour unless the game is over. */
  function ChangeColor(s: State): (r: State)
    requires Valid(s)
    ensures Valid(r)
  {
    if s.gameOver then s else s.(colorIndex := NextColor(s.colorIndex))
  }

  /** `spawnObstacle` (game.js:106-127) with the random colour `c` supplied by the caller. */
  function Spawn(s: State, c: int): (r: State)
    requires Valid(s) && ValidColor(c)
    ensures Valid(r)
    ensures |r.obstacles| == |s.obstacles| + (if s.gameOver then 0 else 1)
  {
    if s.gameOver then s
    else s.(obstacles := s.obstacles + [Obstacle(s.playerX + SPAWN_AHEAD, c)])
  }

  /** The collection without its `i`-th obstacle, the others in their order (`obs.destroy()`, game.js:144). */
  function RemoveAt(obs: seq<Obstacle>, i: nat): (r: seq<Obstacle>)
    requires i < |obs|
    ensures |r| == |obs| - 1
    ensures forall k :: 0 <= k < i ==> r[k] == obs[k]
    ensures forall k {:trigger r[k]} :: i <= k < |r| ==> r[k] == obs[k + 1]
    ensures multiset(r) + multiset{obs[i]} == multiset(obs)
  {
    assert obs == obs[..i] + [obs[i]] + obs[i + 1..];
    obs[..i] + obs[i + 1..]
  }

  /** `endGame` (game.js:149-171): raises the flag; the physics pause goes with it. */
  function EndGame(s: State): (r: State)
    requires Valid(s)
    ensures Valid(r)
    ensures r.gameOver && r.score == s.score && r.obstacles == s.obstacles
  {
    if s.gameOver then s else s.(gameOver := true)
  }

  /**
   * `hitObstacle` (game.js:136-147) for the overlap of the player with
   * obstacle `i`: a matching colour consumes it and scores, a different one
   * ends the game.
   */
  function Hit(s: State, i: nat): (r: State)
    requires Valid(s) && i < |s.obstacles|
    ensures Valid(r)
    ensures s.score <= r.score <= s.score + 1
  {
    if s.gameOver then s
    else if s.obstacles[i].colorIndex != s.colorIndex then EndGame(s)
    else s.(obstacles := RemoveAt(s.obstacles, i), score := s.score + 1)
  }

  /** The obstacles the cleanup in `update` keeps: those not behind `limit`, in their order. */
  function Survivors(obs: seq<Obstacle>, limit: int): (r: seq<Obstacle>)
    ensures |r| <= |obs|
    ensures forall k :: 0 <= k < |r| ==> !(r[k].x < limit)
    decreases |obs|
  {
    if obs == [] then []
    else if obs[0].x < limit then Survivors(obs[1..], limit)
    else [obs[0]] + Survivors(obs[1..], limit)
  }

  /** `update` (game.js:95-103): every frame, destroy the obstacles left too far behind. */
  function Update(s: State): (r: State)
    requires Valid(s)
    ensures Valid(r)
  {
    if s.gameOver then s
    else
      var kept := Survivors(s.obstacles, s.playerX - CLEANUP_BEHIND);
      SurvivorsSubset(s.obstacles, s.playerX - CLEANUP_BEHIND);
      assert forall k :: 0 <= k < |kept| ==> kept[k] in multiset(s.obstacles);
      s.(obstacles := kept)
  }

  /** Every obstacle moved by `d` along x, colours kept. */
  function Shifted(obs: seq<Obstacle>, d: int): (r: seq<Obstacle>)
    ensures |r| == |obs|
    ensures forall k :: 0 <= k < |r| ==> r[k].colorIndex == obs[k].colorIndex && r[k].x - obs[k].x == d
  {
    seq(|obs|, k requires 0 <= k < |obs| => obs[k].(x := obs[k].x + d))
  }

  /**
   * `dt` seconds of arcade physics: the player moves forward and every
   * obstacle backward at PLAYER_SPEED (game.js:53, 122); nothing moves once
   * the game is over, because `endGame` pauses physics (game.js:153).
   */
  function Step(s: State, dt: nat): (r: State)
    requires Valid(s)
    ensures Valid(r)
  {
    if s.gameOver then s
    else s.(playerX := s.playerX + PLAYER_SPEED * dt,
            obstacles := Shifted(s.obstacles, -PLAYER_SPEED * dt))
  }

  /**
   * A pointer-down: `changeColor` runs (game.js:84); while the game is over
   * it does nothing and the one-shot listener of game.js:168-170 restarts
   * the scene, which runs `create` again.
   */
  function Tap(s: State): (r: State)
    requires Valid(s)
    ensures Valid(r)
  {
    if s.gameOver then Initial() else ChangeColor(s)
  }

  /** The cleanup only removes: what it keeps is a sub-multiset of what it was given. */
  lemma {:induction false} SurvivorsSubset(obs: seq<Obstacle>, limit: int)
    ensures multiset(Survivors(obs, limit)) <= multiset(obs)
    decreases |obs|
  {
    if obs != [] {
      assert obs == [obs[0]] + obs[1..];
      SurvivorsSubset(obs[1..], limit);
    }
  }

  /** The cleanup filter distributes over concatenation, so it keeps the survivors' order. */
  lemma {:induction false} SurvivorsAppend(a: seq<Obstacle>, b: seq<Obstacle>, limit: int)
    ensures Survivors(a + b, limit) == Survivors(a, limit) + Survivors(b, limit)
    decreases |a|
  {
    if a == [] {
      assert a + b == b;
    } else {
      var ab := a + b;
      assert ab[0] == a[0] && ab[1..] == a[1..] + b;
      SurvivorsAppend(a[1..], b, limit);
      if !(a[0].x < limit) {
        var x, y := Survivors(a[1..], limit), Survivors(b, limit);
        assert [a[0]] + (x + y) == ([a[0]] + x) + y;
      }
    }
  }

  /** An obstacle survives the cleanup exactly when it was there and is not behind `limit`. */
  lemma {:induction false} SurvivorsMembership(obs: seq<Obstacle>, limit: int, o: Obstacle)
    ensures o in Survivors(obs, limit) <==> o in obs && !(o.x < limit)
    decreases |obs|
  {
    if obs != [] {
      SurvivorsMembership(obs[1..], limit, o);
      assert o in obs <==> o == obs[0] || o in obs[1..];
    }
  }

  /** A second cleanup against the same limit removes nothing more. */
  lemma {:induction false} SurvivorsIdempotent(obs: seq<Obstacle>, limit: int)
    ensures Survivors(Survivors(obs, limit), limit) == Survivors(obs, limit)
    decreases |obs|
  {
    if obs != [] {
      SurvivorsIdempotent(obs[1..], limit);
      if !(obs[0].x < limit) {
        var rest := Survivors(obs[1..], limit);
        assert ([obs[0]] + rest)[1..] == rest;
      }
    }
  }

  /**
   * The walk of game.js:98-102 as the engine's `children.iterate` performs
   * it: the number of steps `n` is fixed when the walk starts, the index
   * advances on every step, and `obs.destroy()` removes the member from the
   * live list at once. A step whose index lies past the shortened list sees
   * no member, which is what the `obs &&` guard at game.js:99 is for.
   */
  function IterateCleanup(live: seq<Obstacle>, i: nat, n: nat, limit: int): (r: seq<Obstacle>)
    ensures |r| <= |live|
    decreases n - i
  {
    if n <= i then live
    else if i < |live| && live[i].x < limit then IterateCleanup(RemoveAt(live, i), i + 1, n, limit)
    else IterateCleanup(live, i + 1, n, limit)
  }

  /** Destroying a stale member leaves the fresh members, and their order, as they were. */
  lemma SurvivorsRemoveStale(obs: seq<Obstacle>, i: nat, limit: int)
    requires i < |obs| && obs[i].x < limit
    ensures Survivors(RemoveAt(obs, i), limit) == Survivors(obs, limit)
  {
    assert obs == obs[..i] + ([obs[i]] + obs[i + 1..]);
    assert RemoveAt(obs, i) == obs[..i] + obs[i + 1..];
    SurvivorsAppend(obs[..i], [obs[i]] + obs[i + 1..], limit);
    SurvivorsAppend([obs[i]], obs[i + 1..], limit);
    SurvivorsAppend(obs[..i], obs[i + 1..], limit);
  }

  /**
   * The walk as the engine performs it only ever destroys stale members:
   * it removes a sub-multiset, and the fresh members survive in their order.
   */
  lemma {:induction false} IterateCleanupOnlyStale(live: seq<Obstacle>, i: nat, n: nat, limit: int)
    ensures Survivors(IterateCleanup(live, i, n, limit), limit) == Survivors(live, limit)
    ensures multiset(IterateCleanup(live, i, n, limit)) <= multiset(live)
    decreases n - i
  {
    if i < n {
      if i < |live| && live[i].x < limit {
        IterateCleanupOnlyStale(RemoveAt(live, i), i + 1, n, limit);
        SurvivorsRemoveStale(live, i, limit);
      } else {
        IterateCleanupOnlyStale(live, i + 1, n, limit);
      }
    }
  }

  /**
   * Two adjacent stale obstacles, with the player at x = 300 (limit 100):
   * the walk destroys the first and steps over the second, which stays until
   * a later frame, while the cleanup the code states removes both.
   */
  lemma IterateCleanupSkipsFollower()
    ensures var g := [Obstacle(0, 0), Obstacle(10, 1)];
      && IterateCleanup(g, 0, |g|, 100) == [Obstacle(10, 1)]
      && Survivors(g, 100) == []
  {
    var g := [Obstacle(0, 0), Obstacle(10, 1)];
    var h := [Obstacle(10, 1)];
    assert RemoveAt(g, 0) == h;
    assert IterateCleanup(g, 0, 2, 100) == IterateCleanup(h, 1, 2, 100);
    assert IterateCleanup(h, 1, 2, 100) == IterateCleanup(h, 2, 2, 100) == h;
    assert g[1..] == h && h[1..] == [];
  }
}
