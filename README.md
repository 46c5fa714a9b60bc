# Colour-matching runner: session rules in Dafny

This project models the game-logic core of `game.js`, a Phaser one-scene arcade game. The player
runs right at a constant speed. Every 900 ms an obstacle of a random palette colour appears
400 units ahead. A tap cycles the player's colour through the 3-entry palette. Touching an
obstacle of the player's own colour destroys it and scores a point. Touching one of another colour
ends the game. After that, the next tap restarts the scene.

The model has three modules:

- `Game` (game.dfy) holds the constants of game.js:2-8 and the session state of game.js:11-16 as
  the `State` datatype. It has one pure transition per handler: `Initial` (`create`), `ChangeColor`,
  `Spawn`, `Hit`, `EndGame`, `Update`, `Step` (the physics motion) and `Tap` (a pointer-down).
  Each keeps the palette invariant `Valid`. It also holds the cleanup filter `Survivors` and its
  lemmas.
- `GameProperties` (properties.dfy) states what the handlers promise. It covers each handler on its
  own and whole runs of engine events (`Event`, `Run`): game over is final until a restart, and the
  score grows only through hits.
- `GameSession` (session.dfy) is the imperative form. The class `Session` has the globals as fields
  and one method per handler. Each method ensures `Snapshot() == F(old(Snapshot()))` for its
  transition `F`. The cleanup in `update` is the loop `DestroyStale`, which walks the group removing
  stale members and is proved equal to `Survivors`.

## Model

| member | source | states |
|---|---|---|
| Game.Initial | game.js:38-41 | the state `create` leaves satisfies the palette invariant |
| Game.NextColor | game.js:132 | the next colour is a palette index different from the old one: one more, or 0 after the last entry |
| Game.ChangeColor | game.js:129-134 | changing colour keeps every colour index inside the palette |
| Game.Spawn | game.js:106-127 | spawning adds exactly one obstacle while running, none after game over, and keeps the palette invariant |
| Game.RemoveAt | game.js:144 | destroying obstacle `i` removes one element, that one; the obstacles before it keep their places and those after it move down by one |
| Game.EndGame | game.js:149-153 | afterwards the game is over, with score and obstacles as they were |
| Game.Hit | game.js:136-147 | a hit keeps the palette invariant and raises the score by 0 or 1, never lowers it |
| Game.Survivors | game.js:98-102 | the cleanup keeps no more obstacles than it was given, and none that is behind the limit |
| Game.SurvivorsSubset | game.js:98-102 | the cleanup only removes: the survivors are a sub-multiset of the group |
| Game.Update | game.js:95-103 | a frame's cleanup keeps the palette invariant |
| Game.Step | game.js:53 | a physics step keeps the palette invariant |
| Game.Shifted | game.js:122 | every obstacle moves by the same distance and keeps its colour |
| Game.Tap | game.js:168-170 | a tap, which may restart the game, keeps the palette invariant |
| Game.SurvivorsAppend | game.js:98-102 | the cleanup distributes over concatenation, so survivors keep their relative order |
| Game.SurvivorsMembership | game.js:99 | an obstacle survives exactly when it was in the group and `x < player.x - 200` is false |
| Game.SurvivorsIdempotent | game.js:98-102 | cleaning twice against the same limit equals cleaning once |
| Game.IterateCleanup | game.js:98-102 | the engine's walk, with a step count fixed at the start and an index that advances past destroyed members, never grows the group |
| Game.SurvivorsRemoveStale | game.js:99-100 | destroying one stale obstacle leaves the fresh obstacles, in their order, as they were |
| Game.IterateCleanupOnlyStale | game.js:98-102 | the engine's walk, with its index advancing past destroyed members, removes only stale obstacles: a sub-multiset, with the fresh ones kept in order |
| Game.IterateCleanupSkipsFollower | game.js:98-102 | two adjacent stale obstacles at limit 100: the engine's walk keeps the second, `Survivors` removes both |
| GameProperties.Apply | game.js:72-92 | handling any admissible engine event keeps the palette invariant |
| GameProperties.Run | game.js:72-92 | the palette invariant holds after any feasible run of events |
| GameProperties.InitialIsReset | game.js:38-41 | `create` gives score 0, game not over, colour 0, player at PLAYER_X and no obstacles |
| GameProperties.GameOverFreezesHandlers | game.js:96 | once over, spawn, colour change, hit, endGame, update and physics all leave the state unchanged |
| GameProperties.ChangeColorNext | game.js:129-134 | while running, a colour change sets the index to `(old + 1) % 3` and changes nothing else |
| GameProperties.ChangeColorCycles | game.js:132 | `n` colour changes advance the index by `n` modulo 3 while running, and do nothing after game over |
| GameProperties.ChangeColorFullCycle | game.js:132 | three colour changes restore the original state |
| GameProperties.SpawnAppends | game.js:106-126 | while running, spawning appends `Obstacle(player.x + 400, c)` after the existing obstacles and changes nothing else |
| GameProperties.HitMatching | game.js:139-146 | a same-colour hit removes exactly that obstacle, keeps the others in order, scores exactly 1 and keeps the game running |
| GameProperties.HitMismatching | game.js:139-141 | a different-colour hit ends the game and changes nothing else: score, colour and obstacles stay |
| GameProperties.EndGameIdempotent | game.js:149-152 | endGame raises the flag from false to true once, and a second call is a no-op |
| GameProperties.UpdateRemovesExactlyStale | game.js:95-102 | while running, an obstacle remains after update iff it was present and not more than 200 behind the player; nothing else changes |
| GameProperties.UpdateKeepsOrder | game.js:98-102 | the remaining obstacles are the survivors of every prefix followed by those of the matching suffix |
| GameProperties.UpdateIdempotent | game.js:95-102 | a second update in the same frame removes nothing more |
| GameProperties.StepClosesGaps | game.js:53 | with the velocities set at lines 53 and 122, a running step advances the player by `200 * dt` and shrinks each obstacle's gap to it by `400 * dt` |
| GameProperties.GameOverIsFinal | game.js:96 | after game over, any run of events without a tap leaves the whole state unchanged |
| GameProperties.ScoreGrowsOnlyByHits | game.js:145 | until a restart the score never decreases, and grows by at most the number of overlaps |
| GameProperties.MatchThenMismatchScenario | game.js:106-147 | spawn colour 1, tap, overlap gives score 1 and no obstacles; then spawn colour 2 and overlap ends the game with score 1 |
| GameSession.DestroyStale | game.js:98-102 | walking the group and removing each stale member leaves exactly `Survivors(group, limit)` |
| GameSession.Session.constructor | game.js:34 | booting the game yields the state of `create` |
| GameSession.Session.Create | game.js:38-93 | `create` resets score, flag, colour, player position and obstacles, and establishes the invariant |
| GameSession.Session.ChangeColor | game.js:129-134 | the fields become `ChangeColor` of the old state: `(old + 1) % 3` while running, unchanged after game over |
| GameSession.Session.SpawnObstacle | game.js:106-127 | the fields become `Spawn` of the old state: one obstacle appended 400 ahead while running |
| GameSession.Session.EndGame | game.js:149-171 | the fields become `EndGame` of the old state: the flag set, score and obstacles unchanged |
| GameSession.Session.HitObstacle | game.js:136-147 | the fields become `Hit` of the old state; the score rises by at most one |
| GameSession.Session.Update | game.js:95-103 | the fields become `Update` of the old state: obstacles filtered by `Survivors` while running |
| GameSession.Session.Step | game.js:53 | the fields become `Step` of the old state: player and obstacles moved while running |
| GameSession.Session.PointerDown | game.js:84 | the fields become `Tap` of the old state: a colour change while running, `create` after game over |

## Left out

- Rendering and UI are not modelled: rectangles, fill colours, the score and game-over texts, the pulse tween and the camera follow (game.js:44-50, 57-68, 78-82, 133, 146, 155-166). They are presentation only.
- The arcade physics engine and its overlap detection are not modelled (game.js:51-55, 86-92, 121-124, 153). An overlap is the event `HitObstacle(i)` on a live obstacle, so the method requires `i < |obstacles|`. Motion is the integer `Step`. The player's y, the sizes and the bodies' other settings only matter to overlap detection.
- Step: time is counted in whole seconds and positions are integers. The engine uses fractional frame times and floating-point positions.
- Step takes the obstacle velocity of game.js:122 as given. The engine's physics group applies its defaults, velocity 0 among them, to a body added to it, so `obstacles.add(obs)` at game.js:126 most likely resets that velocity. In the running game the obstacles would then stand still, and the gap to the player would close at 200 per second, not the 400 that GameProperties.StepClosesGaps derives.
- The obstacles are values in a sequence, not engine objects. Aliasing is not modelled.
- GameProperties.UpdateRemovesExactlyStale / GameSession.DestroyStale: these state the cleanup as the code states it, with every stale obstacle removed in one update. The engine's `children.iterate` takes the number of steps at the start and advances its index past each destroyed member, so the member right after it is not examined in that frame. The `obs &&` guard at game.js:99 catches the steps past the shortened end. One update can therefore leave a stale obstacle that directly follows a destroyed one, and a later frame removes it. Game.IterateCleanup models that walk, and the Findings below record the difference.
- The timer scheduling (game.js:72-76) and the input wiring (game.js:84, 168-170) are not modelled. The callbacks are methods called directly, or events in `Run`.
- `Phaser.Math.Between` (game.js:109) is not modelled. The drawn colour is a parameter with `0 <= c < 3`.
- `scene.restart` (game.js:169) is modelled as running `create` again. Scene teardown and the re-registration of timer and listeners are not modelled.
- The code has no Idle or start phase: `create` sets the player's velocity at once (game.js:53), and a restart runs `create` again, so the new session is running at once. It has no best score, no new-record flag and no sounds, so the model has none.

## Findings

| source | as written | input that shows it | evidently intended | confidence | as-written member | corrected member |
|---|---|---|---|---|---|---|
| game.js:98-102 | the engine's walk advances its index past each destroyed obstacle, so the obstacle right after it is not examined that frame | obstacles at x = 0 and x = 10, player at x = 300 (limit 100): only the first is destroyed | every obstacle more than 200 behind the player is destroyed in that update | not executed; medium, since it rests on how the engine's `children.iterate` walks a shrinking list | Game.IterateCleanupSkipsFollower | GameSession.DestroyStale |
