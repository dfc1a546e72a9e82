# legend_of_mierda gameplay systems in Dafny

This project models the gameplay event systems of the top-down action game
*Legend of Mierda*. The game is built on an entity-component-system engine.
Each system reads events and component queries. It either changes components
in place or queues deferred commands (spawn a child, insert a component,
clone an entity, despawn) for the engine to apply later.

The modelled systems:

- **Enemy spawning** (`event_spawn_mierda`). For every spawn event, every
  level row the level selection matches, and every one of the event's `count`
  rounds, every dummy enemy whose parent is that level's entity gets a new
  sibling. The sibling receives a live enemy component, then a copy of the
  dummy.
- **Player attack** (`event_player_attack`). Every attack event sends a hit for
  each live enemy that is closer than 75 and on the side the player faces.
- **Enemy hit** (`event_mierda_hit`). For every hit event and every player, the
  target gets a 200 ms one-shot hit timer and a flashing timer, a despawn
  pending for 0.3 s, and, while fewer than 256 enemies exist, a request for
  two replacements.
- **Player hit** (`event_player_hit`). A player below 10 health gets a
  game-over event. Any other player loses 10 health, and every health bar is
  set to the new health.
- **Game over** (`event_game_over`). Every overlay node becomes visible.
- **Collectible ("biboran")**:
  - the bundle built from a level entity's `is_dummy` field;
  - the spawn system, which clones the level's dummies to random spots. The
    spots are drawn by a rejection loop: a candidate is kept only when it is
    at least 50 from the player and at least 24 inside the level's edges;
  - the collision system, which notices the player stepping on a collectible;
  - the step-over system, which despawns it.

Layout:

- `ecs.dfy` (module `Ecs`): entity handles, vectors, components, the command
  datatype, level rows, and `Repeat`/`Count` on sequences.
- `spawning.dfy` (module `Spawning`): the event × level × round × prototype
  loop shared by both spawn systems. It is described by the list of clones it
  makes (`SpawnJobs`), with its count and where each clone comes from.
- `events.dfy` (module `Events`): the five systems of `src/events.rs`. The
  systems that update components in place are methods on the class `World`.
- `biboran.dfy` (module `BiboranSystems`): the systems of
  `src/entities/biboran.rs`.

Each system is a method with loops. It is proved equal to a specification
function of its inputs (or of the old state). Lemmas then state what the
program promises about that function.

Modelling choices:

- Distances are compared through their squares over exact reals. For a
  distance `d >= 0`, `d < c` holds exactly when `d*d < c*c`.
- The entity handles the command queue hands out are modelled as
  `Entity(next + k, 0)`: distinct fresh handles counted from `next`.
- Replacements are requested while the enemy count, dummies included and
  taken before any pending despawn, is below 256. The count is retaken for
  each hit event, and one request is sent per hit and per player
  (src/events.rs:143, 145, 173-175).
- The random source of the placement loop is a finite sequence of sampled
  offsets (`oracle`). A placement that uses up the samples without finding
  a spot reports `diverged`. In the program that loop would keep drawing
  forever.
- The deferred despawn of a hit enemy (a promise chain with a 0.3 s timeout)
  is the command `DespawnAfter(target, 300)`.

## Model

| member | source | states |
|---|---|---|
| Ecs.FirstWithHandle | src/events.rs:49-52 | the parent search finds a row with the level's handle, and no earlier row has it |
| Spawning.PassJobsLength | src/events.rs:55-88 | one pass over the prototype query makes as many clones as there are dummies whose parent is the level's entity |
| Spawning.PassJobsCount | src/events.rs:55-88 | one pass clones each dummy under the level's entity once for every query row holding it |
| Spawning.PassJobsComplete | src/events.rs:55-88 | every dummy whose parent is the level's entity is cloned by a pass |
| Spawning.RoundsCount | src/events.rs:54-89 | the `count` rounds for one level clone each of its dummies `count` times per query row holding it |
| Spawning.OtherLevelAbsent | src/events.rs:48-89 | the clones made for one level row never belong to another level row |
| Spawning.LevelJobsCount | src/events.rs:45-91 | with distinct level rows, one spawn event clones each dummy under a selected level `count` times per query row holding it |
| Spawning.LevelJobsLength | src/events.rs:45-91 | one spawn event makes `count` × (dummies under the selected levels) clones in total |
| Spawning.SpawnJobsLength | src/events.rs:44-92 | a whole run makes (sum of the counts) × (prototypes under selected levels) clones |
| Spawning.SpawnJobsSources | src/events.rs:55-66 | every clone copies a dummy whose parent is the entity of a selected level; non-dummies and dummies of other levels are never cloned |
| Events.MierdaCommandsLayout | src/events.rs:68-87 | the k-th clone gets exactly three commands in order: a new child of the prototype's parent, a live enemy component (health 100, not a dummy, no hit timer), then the copy of the prototype |
| Events.EventSpawnMierda | src/events.rs:34-93 | the queued commands are those of `SpawnJobs`, and the entities allocated number (sum of counts) × (selected prototypes) |
| Events.SpawnForLevels | src/events.rs:45-91 | the level loop for one event appends exactly the commands of that event's clones |
| Events.SpawnRounds | src/events.rs:54-89 | the `count` rounds for one level append `count` copies of one pass's clones |
| Events.SpawnForPrototypes | src/events.rs:55-88 | one pass over the query appends the clones of exactly the matching dummies |
| Events.StruckMembers | src/events.rs:108-131 | an attack sends a hit for an entity if and only if some enemy with that entity is live, closer than 75, and in front of the player |
| Events.StruckOnce | src/events.rs:108-131 | with distinct enemy entities, one attack sends one hit to each struck enemy and none to any other (so none to a dummy) |
| Events.AttackHitsPerEnemy | src/events.rs:101-132 | over a run, each enemy receives exactly one hit per attack event whose player strikes it |
| Events.EventPlayerAttack | src/events.rs:95-133 | the hit events sent are exactly `AttackHits` of the events, the player poses and the enemies |
| Events.MierdaHits | src/events.rs:142-177 | the enemy-hit run keeps the same set of enemies |
| Events.MierdaHitsMark | src/events.rs:148-156 | with a player present, every target's component gets the 200 ms hit timer, nothing else about any enemy changes, and no enemy is removed |
| Events.MierdaHitsSpawns | src/events.rs:142-175 | one request for 2 replacements per (hit, player) pair while the enemy count (dummies included) is below 256, and none at or above it |
| Events.MierdaHitsDespawns | src/events.rs:162-171 | each (hit, player) pair leaves exactly one despawn of its target pending for 300 ms, and the system despawns nothing at once |
| Events.MierdaHitsCommands | src/events.rs:142-177 | the commands of a run are, per hit in order, the flash and pending despawn once per player |
| Events.EventMierdaHit | src/events.rs:135-178 | the new enemy components, the commands and the spawn requests are those of `MierdaHits` of the old components, the targets and the player count |
| Events.HitForEachPlayer | src/events.rs:145-176 | the player loop for one hit adds one flash and pending despawn per player, and one replacement request per player below the cap |
| Events.PlayerHit | src/events.rs:187-198 | one hit keeps the set of players and the number of health bars |
| Events.PlayerHits | src/events.rs:186-199 | a run of hits keeps the set of players and the number of health bars |
| Events.PlayerHitOutcome | src/events.rs:186-198 | a hit on a player below 10 health only sends a game-over event; otherwise it takes exactly 10 health, sends nothing, sets every bar to the new health, and changes no other player |
| Events.PlayerHitsNonNegative | src/events.rs:186-198 | hits never drive a player's health below zero |
| Events.RepeatedHits | src/events.rs:186-198 | n hits on a player with health h take 10 health min(n, h/10) times and send one game-over for each remaining hit |
| Events.EventPlayerHit | src/events.rs:180-200 | the new players, bars and number of game-over events are those of `PlayerHits` of the old state |
| Events.ShowGameOverEffect | src/events.rs:206-210 | after any game-over event every overlay node is visible; with none the overlay is unchanged |
| Events.ShowGameOverIdempotent | src/events.rs:206-210 | showing the overlay again changes nothing |
| Events.EventGameOver | src/events.rs:202-211 | the overlay after the run is `ShowGameOver` of the old overlay and the number of events |
| BiboranSystems.CreateBiboranBundle | src/entities/biboran.rs:34-74 | the bundle carries the given dummy flag |
| BiboranSystems.BundleEntity | src/entities/biboran.rs:84-89 | a bundle exists if and only if the entity has a boolean `is_dummy` field, and it carries that field's value; otherwise loading panics |
| BiboranSystems.Placement | src/entities/biboran.rs:157-172 | a placement uses at least one sample and is the player's position moved by the last sample used |
| BiboranSystems.PlacementFirst | src/entities/biboran.rs:160-172 | the placement is the first sampled candidate not rejected, and there is none if and only if every remaining candidate is rejected |
| BiboranSystems.Accepted | src/entities/biboran.rs:160-164 | a candidate that leaves the loop is at least 50 from the player and at least 24 inside every edge |
| BiboranSystems.PlacementInPlayArea | src/entities/biboran.rs:157-172 | a placed collectible is in the play area of its level, at the player's depth |
| BiboranSystems.NoRoom | src/entities/biboran.rs:160-164 | in a level narrower or lower than 48 no sample is ever accepted, so the loop never ends |
| BiboranSystems.PlacementNearPlayer | src/entities/biboran.rs:166-171 | with offsets shorter than 1000, a placed collectible is less than 1000 from the player |
| BiboranSystems.OffsetDistance | src/entities/biboran.rs:169-171 | a candidate is exactly as far from the player as its offset is long |
| BiboranSystems.PlaceBiboran | src/entities/biboran.rs:157-172 | the loop ends with a spot if and only if `Placement` finds one; it returns that spot and the samples it used, at least one |
| BiboranSystems.PlayerSpotRejected | src/entities/biboran.rs:157-160 | the starting candidate, the player's own position, is always rejected, so the loop always draws |
| BiboranSystems.Placements | src/entities/biboran.rs:135-172 | when every clone is placed, there is one spot per clone and no more samples are used than exist |
| BiboranSystems.PlacementsInPlayArea | src/entities/biboran.rs:135-187 | every spawned collectible lies in the play area of its own level, at the player's depth |
| BiboranSystems.PlacementsStuck | src/entities/biboran.rs:135-172 | once a placement never ends, later clones do not change that |
| BiboranSystems.BiboranCommandsLayout | src/entities/biboran.rs:147-187 | the k-th clone gets exactly four commands in order: a new child of the prototype's parent, a live collectible component, the copy of the prototype, and a half-scale transform at its spot |
| BiboranSystems.BiboranSpawnCount | src/entities/biboran.rs:125-190 | a run that places everything queues 4 × (sum of counts) × (selected prototypes) commands |
| BiboranSystems.EventSpawnBiboran | src/entities/biboran.rs:108-193 | without a player nothing happens; with one, the run diverges if and only if a placement never ends; otherwise the commands are those of `SpawnJobs` at the drawn spots, and (sum of counts) × (selected prototypes) entities are allocated |
| BiboranSystems.BiboranForLevels | src/entities/biboran.rs:126-191 | the level loop for one event extends the run by that event's clones |
| BiboranSystems.BiboranForLevel | src/entities/biboran.rs:127-190 | one level row adds its rounds' clones if the selection matches it, and nothing otherwise |
| BiboranSystems.BiboranRounds | src/entities/biboran.rs:135-189 | the `count` rounds for one level add `count` copies of one pass's clones |
| BiboranSystems.BiboranForPrototypes | src/entities/biboran.rs:136-188 | one pass over the query adds the clones of exactly the matching dummies |
| BiboranSystems.BiboranForPrototype | src/entities/biboran.rs:137-187 | one query row is skipped unless it is a dummy under the level; otherwise it is placed and cloned, or the run diverges |
| BiboranSystems.EventOnBiboranStepOver | src/entities/biboran.rs:195-218 | the commands are exactly `StepOver` of the events and the collectibles |
| BiboranSystems.DespawnsCount | src/entities/biboran.rs:211-216 | one event despawns every collectible equal to its target, once per occurrence, and nothing else |
| BiboranSystems.StepOverCount | src/entities/biboran.rs:202-217 | each collectible is despawned once per step-over event naming it (times its occurrences in the query) |
| BiboranSystems.StepOverOnlyTargets | src/entities/biboran.rs:202-217 | only recursive despawns of collectibles that exist and are named by an event are queued |
| BiboranSystems.FirstTouching | src/entities/biboran.rs:232-244 | the collectible found is the first that a beginning contact touches together with the player, in either order by index; there is none if and only if no collectible is touched |
| BiboranSystems.FirstTouchingAt | src/entities/biboran.rs:232-244 | the first touched position in the query determines the collectible found |
| BiboranSystems.Scan | src/entities/biboran.rs:231-245 | the scan stops at the first contact that touches a collectible, after reading it; if none does, it reads every contact and sends nothing |
| BiboranSystems.HandlePlayerBiboranCollision | src/entities/biboran.rs:224-247 | the step-over event sent and the contacts read are those of `Collide`: the first player's scan, with later players seeing no unread contact |
| BiboranSystems.CollideByIndex | src/entities/biboran.rs:233-242 | swapping a contact's two entities or changing any generation does not change the run |
| BiboranSystems.StoppedNeverSteps | src/entities/biboran.rs:233 | contacts that end never lead to a step-over |

## Left out

- src/postprocessing.rs (the render pass) is not part of this model.
- `setup_biboran_scene`, `play_biboran_animation` and the plugin's system registration are engine setup, not modelled.
- The knockback in `event_mierda_hit` is not modelled. It uses a normalised float vector, and no other modelled state depends on the velocity.
- f32 rounding is not modelled. Positions are exact reals, and `length() < c` is compared as a squared length.
- The polar sampling (`gen_range` radius and angle, `sin`/`cos`) is replaced by a sequence of sampled offsets.
- BiboranSystems.PlacementNearPlayer: assumes every sampled offset is shorter than 1000. The sine and cosine that guarantee this are not modelled.
- BiboranSystems.EventSpawnBiboran: a placement that never ends is reported as `diverged` once the finite samples run out, not as non-termination.
- The level selection's `is_match` is the `isSelected` input of each level row.
- Level asset lookups that would panic are not modelled.
- Each level's size is given in the level row.
- `CloneEntity` is an opaque command. Which components a clone ends up with (whether the copy overwrites the inserted component) is not modelled.
- The entity allocator's slot reuse and generations are not modelled; only distinct fresh handles are.
- The despawn promise chain is the single command `DespawnAfter(target, 300)`. Its later execution, and what happens if the entity is gone by then, are not modelled.
- Events.EventMierdaHit: requires every hit target to exist when a player is present. The program unwraps that lookup and panics otherwise.
- Events.EventPlayerAttack: requires every attacking entity to be a player, for the same reason.
- Events.EventPlayerHit: requires every hit entity to be a player, for the same reason.
- BiboranSystems.EventSpawnBiboran: requires at most one player, because `single()` panics when there are several.
- The event readers' cursors are modelled as the sequence of unread events of one run. The collision system's shared cursor is the `read` count.
- The player component has only its health.
- The health bonus in `event_on_biboran_step_over` is commented out in the program, so the player loop there has no effect.
- The health bar's `Style` is its width in percent, an integer.
- The bundle's sprite sheet, collider, friction and sensor are engine data, not modelled.
