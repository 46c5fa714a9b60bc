/**
 * What the rules of game.js promise, stated over single handlers and over
 * whole sequences of the events the engine delivers to them.
 */
module GameProperties {
  import opened Game

  /**
   * The callbacks the engine invokes: the 900 ms spawn timer (game.js:72-76)
   * with the colour it drew, a pointer-down (game.js:84, 168-170), an overlap
   * with a live obstacle (game.js:86-92), a frame's `update`, and a physics
   * step of `dt` seconds.
   */
  datatype Event =
    | SpawnTimer(color: int)
    | PointerDown
    | Overlap(index: nat)
    | Frame
    | PhysicsStep(dt: nat)

  /** What the engine guarantees of an event: a palette colour, an obstacle that exists. */
  predicate Admissible(s: State, e: Event) {
    match e
    case SpawnTimer(c) => ValidColor(c)
    case Overlap(i) => i < |s.obstacles|
    case PointerDown => true
    case Frame => true
    case PhysicsStep(_) => true
  }

  function Apply(s: State, e: Event): (r: State)
    requires Valid(s) && Admissible(s, e)
    ensures Valid(r)
  {
    match e
    case SpawnTimer(c) => Spawn(s, c)
    case PointerDown => Tap(s)
    case Overlap(i) => Hit(s, i)
    case Frame => Update(s)
    case PhysicsStep(dt) => Step(s, dt)
  }

  /** Every event of `evs` is admissible in the state it reaches. */
  predicate Feasible(s: State, evs: seq<Event>)
    requires Valid(s)
    decreases |evs|
  {
    evs == [] || (Admissible(s, evs[0]) && Feasible(Apply(s, evs[0]), evs[1..]))
  }

  /** The state after handling `evs` in order; the palette invariant holds throughout. */
  function Run(s: State, evs: seq<Event>): (r: State)
    requires Valid(s) && Feasible(s, evs)
    ensures Valid(r)
    decreases |evs|
  {
    if evs == [] then s else Run(Apply(s, evs[0]), evs[1..])
  }

  /** No event of `evs` is a tap that restarts a finished game. */
  predicate NoRestart(s: State, evs: seq<Event>)
    requires Valid(s) && Feasible(s, evs)
    decreases |evs|
  {
    evs == [] || (!(evs[0].PointerDown? && s.gameOver) && NoRestart(Apply(s, evs[0]), evs[1..]))
  }

  /** The number of overlap events in `evs`. */
  function Overlaps(evs: seq<Event>): nat
    decreases |evs|
  {
    if evs == [] then 0 else (if evs[0].Overlap? then 1 else 0) + Overlaps(evs[1..])
  }

  /** `n` colour changes in a row. */
  function ChangeColorTimes(s: State, n: nat): (r: State)
    requires Valid(s)
    ensures Valid(r)
    decreases n
  {
    if n == 0 then s else ChangeColor(ChangeColorTimes(s, n - 1))
  }

  /** `create` resets everything: no score, not over, first colour, start position, no obstacles. */
  lemma InitialIsReset()
    ensures Initial().score == 0 && !Initial().gameOver && Initial().colorIndex == 0
    ensures Initial().playerX == PLAYER_X && Initial().obstacles == []
  {
  }

  /** Once the game is over, no handler changes anything (game.js:96, 107, 130, 137, 150, 153). */
  lemma GameOverFreezesHandlers(s: State, c: int, i: nat, dt: nat)
    requires Valid(s) && s.gameOver && ValidColor(c) && i < |s.obstacles|
    ensures Spawn(s, c) == s && ChangeColor(s) == s && Hit(s, i) == s
    ensures EndGame(s) == s && Update(s) == s && Step(s, dt) == s
  {
  }

  /** A colour change moves to the next palette entry modulo the palette size (game.js:132). */
  lemma ChangeColorNext(s: State)
    requires Valid(s) && !s.gameOver
    ensures ChangeColor(s) == s.(colorIndex := (s.colorIndex + 1) % |COLORS|)
  {
  }

  /** `n` colour changes advance the index by `n` modulo the palette size. */
  lemma {:induction false} ChangeColorCycles(s: State, n: nat)
    requires Valid(s)
    ensures ChangeColorTimes(s, n)
         == if s.gameOver then s else s.(colorIndex := (s.colorIndex + n) % |COLORS|)
    decreases n
  {
    if n > 0 {
      ChangeColorCycles(s, n - 1);
    }
  }

  /** As many colour changes as there are palette entries restore the colour. */
  lemma {:induction false} ChangeColorFullCycle(s: State)
    requires Valid(s)
    ensures ChangeColorTimes(s, |COLORS|) == s
  {
    ChangeColorCycles(s, |COLORS|);
    assert (s.colorIndex + |COLORS|) % |COLORS| == s.colorIndex;
  }

  /** A new obstacle appears SPAWN_AHEAD in front of the player, after the others (game.js:106-126). */
  lemma SpawnAppends(s: State, c: int)
    requires Valid(s) && !s.gameOver && ValidColor(c)
    ensures Spawn(s, c).obstacles == s.obstacles + [Obstacle(s.playerX + SPAWN_AHEAD, c)]
    ensures Spawn(s, c).(obstacles := s.obstacles) == s
  {
  }

  /**
   * A hit on an obstacle of the player's colour destroys exactly that one,
   * scores exactly one and keeps the game going (game.js:139-146).
   */
  lemma HitMatching(s: State, i: nat)
    requires Valid(s) && !s.gameOver && i < |s.obstacles|
    requires s.obstacles[i].colorIndex == s.colorIndex
    ensures var r := Hit(s, i);
      && r.score == s.score + 1 && !r.gameOver
      && r.colorIndex == s.colorIndex && r.playerX == s.playerX
      && r.obstacles == s.obstacles[..i] + s.obstacles[i + 1..]
      && multiset(r.obstacles) + multiset{s.obstacles[i]} == multiset(s.obstacles)
  {
  }

  /**
   * A hit on an obstacle of another colour ends the game and changes
   * nothing else: the obstacle stays, the score stays (game.js:139-141, 149-153).
   */
  lemma HitMismatching(s: State, i: nat)
    requires Valid(s) && !s.gameOver && i < |s.obstacles|
    requires s.obstacles[i].colorIndex != s.colorIndex
    ensures Hit(s, i) == s.(gameOver := true)
  {
  }

  /** `endGame` raises the flag once; calling it again is a no-op (game.js:149-152). */
  lemma EndGameIdempotent(s: State)
    requires Valid(s)
    ensures EndGame(s).gameOver
    ensures !s.gameOver ==> EndGame(s) == s.(gameOver := true)
    ensures EndGame(EndGame(s)) == EndGame(s)
  {
  }

  /**
   * `update` removes exactly the obstacles more than CLEANUP_BEHIND behind
   * the player and touches nothing else (game.js:95-102).
   */
  lemma UpdateRemovesExactlyStale(s: State, o: Obstacle)
    requires Valid(s) && !s.gameOver
    ensures Update(s).(obstacles := s.obstacles) == s
    ensures o in Update(s).obstacles <==> o in s.obstacles && !(o.x < s.playerX - CLEANUP_BEHIND)
  {
    SurvivorsMembership(s.obstacles, s.playerX - CLEANUP_BEHIND, o);
  }

  /** The survivors of `update` keep their relative order: the filter splits over any cut. */
  lemma UpdateKeepsOrder(s: State, k: nat)
    requires Valid(s) && !s.gameOver && k <= |s.obstacles|
    ensures var limit := s.playerX - CLEANUP_BEHIND;
      Update(s).obstacles == Survivors(s.obstacles[..k], limit) + Survivors(s.obstacles[k..], limit)
  {
    assert s.obstacles == s.obstacles[..k] + s.obstacles[k..];
    SurvivorsAppend(s.obstacles[..k], s.obstacles[k..], s.playerX - CLEANUP_BEHIND);
  }

  /** A second `update` in the same frame removes nothing more. */
  lemma UpdateIdempotent(s: State)
    requires Valid(s)
    ensures Update(Update(s)) == Update(s)
  {
    SurvivorsIdempotent(s.obstacles, s.playerX - CLEANUP_BEHIND);
  }

  /**
   * With the velocities the code sets (game.js:53 for the player, game.js:122
   * for each obstacle), a physics step of a running game moves the player
   * forward and closes the gap to every obstacle by twice the distance the
   * player travels.
   */
  lemma StepClosesGaps(s: State, dt: nat, k: nat)
    requires Valid(s) && !s.gameOver && k < |s.obstacles|
    ensures var r := Step(s, dt);
      && r.playerX == s.playerX + PLAYER_SPEED * dt
      && |r.obstacles| == |s.obstacles|
      && r.obstacles[k].colorIndex == s.obstacles[k].colorIndex
      && r.obstacles[k].x - r.playerX == s.obstacles[k].x - s.playerX - 2 * PLAYER_SPEED * dt
  {
  }

  /** After game over, any run without a tap leaves the whole state as it was. */
  lemma {:induction false} GameOverIsFinal(s: State, evs: seq<Event>)
    requires Valid(s) && s.gameOver && Feasible(s, evs)
    requires forall k :: 0 <= k < |evs| ==> !evs[k].PointerDown?
    ensures Run(s, evs) == s
    decreases |evs|
  {
    if evs != [] {
      assert Apply(s, evs[0]) == s;
      GameOverIsFinal(s, evs[1..]);
    }
  }

  /**
   * Until a restart the score never decreases, and it grows by at most one
   * per overlap (game.js:145 is the only increment).
   */
  lemma {:induction false} ScoreGrowsOnlyByHits(s: State, evs: seq<Event>)
    requires Valid(s) && Feasible(s, evs) && NoRestart(s, evs)
    ensures s.score <= Run(s, evs).score <= s.score + Overlaps(evs)
    decreases |evs|
  {
    if evs != [] {
      ScoreGrowsOnlyByHits(Apply(s, evs[0]), evs[1..]);
    }
  }

  /**
   * Start, spawn a colour-1 obstacle, tap once, overlap it: one point and
   * no obstacles. Spawn a colour-2 obstacle and overlap it: game over with
   * the score kept.
   */
  lemma MatchThenMismatchScenario()
    ensures Feasible(Initial(), [SpawnTimer(1), PointerDown, Overlap(0)])
    ensures var mid := Run(Initial(), [SpawnTimer(1), PointerDown, Overlap(0)]);
      && mid.score == 1 && mid.obstacles == [] && !mid.gameOver
      && Feasible(mid, [SpawnTimer(2), Overlap(0)])
      && Run(mid, [SpawnTimer(2), Overlap(0)]).gameOver
      && Run(mid, [SpawnTimer(2), Overlap(0)]).score == 1
  {
  }
}
