/**
 * The game session of game.js as an object: the module-level globals become
 * fields, and each handler a method that updates them in place. Every method
 * is proved to perform exactly the corresponding transition of module Game
 * (Snapshot() afterwards is that function of Snapshot() before), so the
 * properties proved about those transitions hold of the session.
 */
module GameSession {
  import opened Game

  /**
   * The walk in DestroyStale has destroyed the stale members among the
   * first `j` of `group`, kept the other `i`, and not yet visited the rest.
   */
  predicate Walked(group: seq<Obstacle>, limit: int, live: seq<Obstacle>, i: nat, j: nat) {
    && j <= |group|
    && live == Survivors(group[..j], limit) + group[j..]
    && i == |Survivors(group[..j], limit)|
  }

  /** Visiting the next member keeps Walked, whether it is destroyed or stepped over. */
  lemma WalkStep(group: seq<Obstacle>, limit: int, live: seq<Obstacle>, i: nat, j: nat)
    requires Walked(group, limit, live, i, j) && i < |live|
    ensures j < |group| && live[i] == group[j]
    ensures live[i].x < limit ==> Walked(group, limit, RemoveAt(live, i), i, j + 1)
    ensures !(live[i].x < limit) ==> Walked(group, limit, live, i + 1, j + 1)
  {
    var kept := Survivors(group[..j], limit);
    assert group[j..] == [group[j]] + group[j + 1..];
    assert group[..j + 1] == group[..j] + [group[j]];
    SurvivorsAppend(group[..j], [group[j]], limit);
    if live[i].x < limit {
      assert Survivors(group[..j + 1], limit) == kept;
      assert RemoveAt(live, i) == kept + group[j + 1..];
    } else {
      assert Survivors(group[..j + 1], limit) == kept + [group[j]];
      assert live == (kept + [group[j]]) + group[j + 1..];
    }
  }

  /**
   * The cleanup walk of `update` (game.js:98-102) as the code states it:
   * every member behind `limit` is removed from the walked list, the rest
   * are stepped over, so that no stale member is left. The engine's own walk
   * steps over the member that follows a destroyed one (Game.IterateCleanup);
   * this walk re-examines it instead.
   */
  method DestroyStale(group: seq<Obstacle>, limit: int) returns (live: seq<Obstacle>)
    ensures live == Survivors(group, limit)
  {
    live := group;
    var i := 0;
    // j counts the members of the original group already visited
    ghost var j := 0;
    assert group[..0] == [];
    while i < |live|
      invariant Walked(group, limit, live, i, j)
      decreases |live| - i
    {
      WalkStep(group, limit, live, i, j);
      if live[i].x < limit {
        live := RemoveAt(live, i);
      } else {
        i := i + 1;
      }
      j := j + 1;
    }
    assert group[..j] == group;
  }

  class Session {
    var currentColorIndex: int
    var score: nat
    var gameOver: bool
    /** The player's x position; its y and size never change (game.js:4-5). */
    var playerX: int
    /** The live members of the `obstacles` physics group, in insertion order. */
    var obstacles: seq<Obstacle>

    /** The fields as a value, for comparison with the rules. */
    function Snapshot(): State
      reads this
    {
      State(currentColorIndex, score, gameOver, playerX, obstacles)
    }

    ghost predicate Valid()
      reads this
    {
      Game.Valid(Snapshot())
    }

    /** Booting the game runs the scene's `create` once. */
    constructor ()
      ensures Valid() && Snapshot() == Initial()
    {
      new;
      Create();
    }

    /** `create` (game.js:38-93), run again by a restart: resets the whole session. */
    method Create()
      modifies this
      ensures Valid() && Snapshot() == Initial()
      ensures score == 0 && !gameOver && currentColorIndex == 0
      ensures playerX == PLAYER_X && obstacles == []
    {
      score := 0;
      gameOver := false;
      currentColorIndex := 0;
      playerX := PLAYER_X;
      obstacles := [];
    }

    /** `changeColor` (game.js:129-134). */
    method ChangeColor()
      requires Valid()
      modifies this
      ensures Valid() && Snapshot() == Game.ChangeColor(old(Snapshot()))
      ensures ValidColor(currentColorIndex)
      ensures currentColorIndex == if gameOver then old(currentColorIndex)
                                   else (old(currentColorIndex) + 1) % |COLORS|
    {
      if gameOver {
        return;
      }
      currentColorIndex := (currentColorIndex + 1) % |COLORS|;
    }

    /** `spawnObstacle` (game.js:106-127); `colorIndex` is the value `Phaser.Math.Between` drew. */
    method SpawnObstacle(colorIndex: int)
      requires Valid() && ValidColor(colorIndex)
      modifies this
      ensures Valid() && Snapshot() == Spawn(old(Snapshot()), colorIndex)
      ensures obstacles == if gameOver then old(obstacles)
                           else old(obstacles) + [Obstacle(playerX + SPAWN_AHEAD, colorIndex)]
    {
      if gameOver {
        return;
      }
      var obs := Obstacle(playerX + SPAWN_AHEAD, colorIndex);
      obstacles := obstacles + [obs];
    }

    /** `endGame` (game.js:149-171). */
    method EndGame()
      requires Valid()
      modifies this
      ensures Valid() && Snapshot() == Game.EndGame(old(Snapshot()))
      ensures gameOver && score == old(score) && obstacles == old(obstacles)
    {
      if gameOver {
        return;
      }
      gameOver := true;
    }

    /** `hitObstacle` (game.js:136-147), for an overlap of the player with obstacle `i`. */
    method HitObstacle(i: nat)
      requires Valid() && i < |obstacles|
      modifies this
      ensures Valid() && Snapshot() == Hit(old(Snapshot()), i)
      ensures old(score) <= score <= old(score) + 1
    {
      if gameOver {
        return;
      }
      if obstacles[i].colorIndex != currentColorIndex {
        EndGame();
        return;
      }
      obstacles := RemoveAt(obstacles, i);
      score := score + 1;
    }

    /**
     * `update` (game.js:95-103): every frame of a running game, destroys
     * the obstacles more than CLEANUP_BEHIND behind the player.
     */
    method Update()
      requires Valid()
      modifies this
      ensures Valid() && Snapshot() == Game.Update(old(Snapshot()))
      ensures obstacles == if gameOver then old(obstacles)
                           else Survivors(old(obstacles), playerX - CLEANUP_BEHIND)
    {
      if gameOver {
        return;
      }
      obstacles := DestroyStale(obstacles, playerX - CLEANUP_BEHIND);
      // needed: Valid() follows from Game.Update's own ensures once the snapshots are equated
      assert Snapshot() == Game.Update(old(Snapshot()));
    }

    /**
     * `dt` seconds of the arcade physics the engine runs between frames,
     * with the velocities set at game.js:53 and game.js:122.
     */
    method Step(dt: nat)
      requires Valid()
      modifies this
      ensures Valid() && Snapshot() == Game.Step(old(Snapshot()), dt)
      ensures !gameOver ==> playerX == old(playerX) + PLAYER_SPEED * dt
    {
      if gameOver {
        return;
      }
      playerX := playerX + PLAYER_SPEED * dt;
      obstacles := Shifted(obstacles, -PLAYER_SPEED * dt);
    }

    /**
     * A pointer-down: `changeColor` (game.js:84), then, when the game is
     * over, the one-shot restart listener of game.js:168-170.
     */
    method PointerDown()
      requires Valid()
      modifies this
      ensures Valid() && Snapshot() == Tap(old(Snapshot()))
    {
      var restart := gameOver;
      ChangeColor();
      if restart {
        Create();
      }
    }
  }
}
