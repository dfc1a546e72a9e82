/** The enemy and player event systems: spawning enemies from their level
    prototypes, resolving a player attack into enemy hits, reacting to an enemy
    hit, damaging the player and showing the game-over overlay. */
module Events {
  import opened Ecs
  import opened Spawning

  datatype PlayerAttackEvent = PlayerAttackEvent(entity: Entity)
  datatype PlayerHitEvent = PlayerHitEvent(entity: Entity)
  datatype GameOverEvent = GameOverEvent
  datatype MierdaHitEvent = MierdaHitEvent(target: Entity)
  type SpawnMierdaEvent = SpawnEvent

  /** Health a player loses per hit, and the floor below which a hit ends the game. */
  const PlayerHitDamage: int := 10
  /** An attack reaches enemies strictly closer than this. */
  const AttackReach: real := 75.0
  /** No replacements are requested once this many enemies exist. */
  const PopulationCap: nat := 256
  /** How many replacements a hit requests. */
  const RespawnBatch: nat := 2
  /** The one-shot timer a hit enemy flashes for. */
  const HitTimer: Timer := Timer(200, Once)
  /** How long a hit enemy lingers before it is despawned. */
  const DespawnDelayMs: nat := 300
  /** The enemy component a clone receives before the prototype is copied onto it. */
  const LiveMierda: Mierda := Mierda(false, 100, Vec2(0.0, 0.0), None)

  /** The part of the world the player-hit, enemy-hit and game-over systems
      update in place: player components, the width (in percent) of every
      health-bar node, enemy components, and the visibility of every
      game-over overlay node. */
  class World {
    var players: map<Entity, Player>
    var healthBars: seq<int>
    var mierdas: map<Entity, Mierda>
    var gameOverUi: seq<Visibility>

    constructor (players: map<Entity, Player>, healthBars: seq<int>,
                 mierdas: map<Entity, Mierda>, gameOverUi: seq<Visibility>)
      ensures this.players == players && this.healthBars == healthBars
      ensures this.mierdas == mierdas && this.gameOverUi == gameOverUi
    {
      this.players := players;
      this.healthBars := healthBars;
      this.mierdas := mierdas;
      this.gameOverUi := gameOverUi;
    }
  }

  // =====================================================================
  // Spawning enemies
  // =====================================================================

  /** The commands that make one enemy clone `child` for `job`. */
  function MierdaClone(job: Job, child: Entity): seq<Command>
  {
    [SpawnChild(job.parent, child), InsertMierda(child, LiveMierda), CloneEntity(job.source, child)]
  }

  /** The commands for a list of clones whose children are allocated from `next` on. */
  function MierdaCommands(jobs: seq<Job>, next: nat): seq<Command>
  {
    if |jobs| == 0 then []
    else MierdaCommands(jobs[..|jobs| - 1], next) + MierdaClone(jobs[|jobs| - 1], Fresh(next, |jobs| - 1))
  }

  /** The `k`-th clone gets three commands in a row: a new child of the
      prototype's parent, a live enemy component on it, then the copy of the
      prototype onto it. */
  lemma {:induction false} MierdaCommandsLayout(jobs: seq<Job>, next: nat)
    ensures |MierdaCommands(jobs, next)| == 3 * |jobs|
    ensures forall k :: 0 <= k < |jobs| ==>
              && MierdaCommands(jobs, next)[3 * k] == SpawnChild(jobs[k].parent, Fresh(next, k))
              && MierdaCommands(jobs, next)[3 * k + 1] == InsertMierda(Fresh(next, k), LiveMierda)
              && MierdaCommands(jobs, next)[3 * k + 2] == CloneEntity(jobs[k].source, Fresh(next, k))
  {
    if |jobs| > 0 {
      var n := |jobs| - 1;
      MierdaCommandsLayout(jobs[..n], next);
    }
  }

  lemma MierdaCommandsSnoc(jobs: seq<Job>, job: Job, next: nat)
    ensures MierdaCommands(jobs + [job], next) == MierdaCommands(jobs, next) + MierdaClone(job, Fresh(next, |jobs|))
  {
    assert (jobs + [job])[..|jobs|] == jobs;
  }

  /** The enemy spawn system. For every spawn event, every level row the
      selection matches and every one of the event's `count` rounds, each
      dummy enemy whose parent is that level's entity gets a new sibling that
      is first given a live enemy component and then a copy of the dummy.
      `next` is the first free entity slot. */
  method EventSpawnMierda(events: seq<SpawnMierdaEvent>, levels: seq<LevelRow>,
                          mierdas: seq<PrototypeRow>, next: nat)
    returns (cmds: seq<Command>, nextFree: nat)
    ensures cmds == MierdaCommands(SpawnJobs(SpawnCounts(events), mierdas, levels), next)
    ensures nextFree - next
            == Requested(SpawnCounts(events)) * SelectedPrototypes(mierdas, levels, |levels|)
  {
    ghost var counts := SpawnCounts(events);
    cmds, nextFree := [], next;
    for i := 0 to |events|
      invariant var jobs := SpawnJobs(counts[..i], mierdas, levels);
                cmds == MierdaCommands(jobs, next) && nextFree == next + |jobs|
    {
      assert counts[..i + 1][..i] == counts[..i];
      cmds, nextFree := SpawnForLevels(events[i].count, levels, mierdas, next,
                                       SpawnJobs(counts[..i], mierdas, levels), cmds, nextFree);
    }
    assert counts[..|events|] == counts;
    SpawnJobsLength(counts, mierdas, levels);
  }

  /** The loop over the level rows for one spawn event asking for `count`,
      continuing a run whose clones so far are `done`. */
  method SpawnForLevels(count: nat, levels: seq<LevelRow>, mierdas: seq<PrototypeRow>, next: nat,
                        ghost done: seq<Job>, cmdsBefore: seq<Command>, nextBefore: nat)
    returns (cmds: seq<Command>, nextFree: nat)
    requires cmdsBefore == MierdaCommands(done, next) && nextBefore == next + |done|
    ensures var jobs := done + LevelJobs(count, mierdas, levels, |levels|);
            cmds == MierdaCommands(jobs, next) && nextFree == next + |jobs|
  {
    cmds, nextFree := cmdsBefore, nextBefore;
    assert done + LevelJobs(count, mierdas, levels, 0) == done;
    for l := 0 to |levels|
      invariant var jobs := done + LevelJobs(count, mierdas, levels, l);
                cmds == MierdaCommands(jobs, next) && nextFree == next + |jobs|
    {
      ghost var before := done + LevelJobs(count, mierdas, levels, l);
      if levels[l].isSelected {
        var parent := levels[FirstWithHandle(levels, levels[l].handle)].entity;
        cmds, nextFree := SpawnRounds(count, mierdas, parent, levels[l], next, before, cmds, nextFree);
        assert done + LevelJobs(count, mierdas, levels, l + 1)
               == before + Repeat(PassJobs(mierdas, parent, levels[l]), count);
      } else {
        assert done + LevelJobs(count, mierdas, levels, l + 1) == before;
      }
    }
  }

  /** The `count` rounds for one spawn event and one level row whose entity
      is `parent`, continuing a run whose clones so far are `done`. */
  method SpawnRounds(count: nat, mierdas: seq<PrototypeRow>, parent: Entity, level: LevelRow, next: nat,
                     ghost done: seq<Job>, cmdsBefore: seq<Command>, nextBefore: nat)
    returns (cmds: seq<Command>, nextFree: nat)
    requires cmdsBefore == MierdaCommands(done, next) && nextBefore == next + |done|
    ensures var jobs := done + Repeat(PassJobs(mierdas, parent, level), count);
            cmds == MierdaCommands(jobs, next) && nextFree == next + |jobs|
  {
    ghost var pass := PassJobs(mierdas, parent, level);
    cmds, nextFree := cmdsBefore, nextBefore;
    assert done + Repeat(pass, 0) == done;
    for k := 0 to count
      invariant var jobs := done + Repeat(pass, k);
                cmds == MierdaCommands(jobs, next) && nextFree == next + |jobs|
    {
      cmds, nextFree := SpawnForPrototypes(mierdas, parent, level, next, done + Repeat(pass, k), cmds, nextFree);
      assert done + Repeat(pass, k + 1) == done + Repeat(pass, k) + pass;
    }
  }

  /** One pass over the enemy query under `parent`, continuing a run whose
      clones so far are `done`: non-dummies and dummies of other parents are
      skipped. */
  method SpawnForPrototypes(mierdas: seq<PrototypeRow>, parent: Entity, level: LevelRow, next: nat,
                            ghost done: seq<Job>, cmdsBefore: seq<Command>, nextBefore: nat)
    returns (cmds: seq<Command>, nextFree: nat)
    requires cmdsBefore == MierdaCommands(done, next) && nextBefore == next + |done|
    ensures var jobs := done + PassJobs(mierdas, parent, level);
            cmds == MierdaCommands(jobs, next) && nextFree == next + |jobs|
  {
    cmds, nextFree := cmdsBefore, nextBefore;
    assert done + PassJobs(mierdas[..0], parent, level) == done;
    for j := 0 to |mierdas|
      invariant var jobs := done + PassJobs(mierdas[..j], parent, level);
                cmds == MierdaCommands(jobs, next) && nextFree == next + |jobs|
    {
      assert mierdas[..j + 1][..j] == mierdas[..j];
      ghost var jobs := done + PassJobs(mierdas[..j], parent, level);
      var m := mierdas[j];
      if !m.isDummy {
        assert done + PassJobs(mierdas[..j + 1], parent, level) == jobs;
        continue;
      }
      if parent != m.parent {
        assert done + PassJobs(mierdas[..j + 1], parent, level) == jobs;
        continue;
      }
      var child := Entity(nextFree, 0);
      cmds := cmds + [SpawnChild(m.parent, child), InsertMierda(child, Mierda(false, 100, Vec2(0.0, 0.0), None)),
                      CloneEntity(m.entity, child)];
      nextFree := nextFree + 1;
      MierdaCommandsSnoc(jobs, Job(m.entity, parent, level), next);
      assert done + PassJobs(mierdas[..j + 1], parent, level) == jobs + [Job(m.entity, parent, level)];
    }
    assert mierdas[..|mierdas|] == mierdas;
  }

  // =====================================================================
  // Player attack
  // =====================================================================

  datatype Direction = Up | Down | Left | Right

  /** What the attack system reads of the attacking player. */
  datatype PlayerPose = PlayerPose(position: Vec3, facing: Direction)

  /** What the attack system reads of an enemy. */
  datatype MierdaView = MierdaView(entity: Entity, position: Vec3, isDummy: bool)

  /** The enemy lies strictly on the side the player faces, along the one axis
      of that facing. */
  predicate InFront(facing: Direction, player: Vec3, enemy: Vec3)
  {
    match facing
    case Up => player.y < enemy.y
    case Down => player.y > enemy.y
    case Left => player.x > enemy.x
    case Right => player.x < enemy.x
  }

  /** An attack from `pose` strikes `m`: a live enemy, closer than the reach,
      in front of the player. */
  predicate IsStruck(pose: PlayerPose, m: MierdaView)
  {
    && !m.isDummy
    && DistanceSquared(pose.position, m.position) < AttackReach * AttackReach
    && InFront(pose.facing, pose.position, m.position)
  }

  /** The hit events one attack sends, in enemy query order. */
  function Struck(pose: PlayerPose, ms: seq<MierdaView>): seq<MierdaHitEvent>
  {
    if |ms| == 0 then []
    else
      var m := ms[|ms| - 1];
      Struck(pose, ms[..|ms| - 1]) + (if IsStruck(pose, m) then [MierdaHitEvent(m.entity)] else [])
  }

  /** The hit events a run of the attack system sends. */
  function AttackHits(events: seq<PlayerAttackEvent>, players: map<Entity, PlayerPose>,
                      ms: seq<MierdaView>): seq<MierdaHitEvent>
    requires forall ev :: ev in events ==> ev.entity in players
  {
    if |events| == 0 then []
    else
      var ev := events[|events| - 1];
      AttackHits(events[..|events| - 1], players, ms) + Struck(players[ev.entity], ms)
  }

  predicate DistinctEnemies(ms: seq<MierdaView>)
  {
    forall i, j :: 0 <= i < j < |ms| ==> ms[i].entity != ms[j].entity
  }

  /** An attack sends a hit for an entity exactly when some enemy with that
      entity is struck. */
  lemma {:induction false} StruckMembers(pose: PlayerPose, ms: seq<MierdaView>, e: Entity)
    ensures MierdaHitEvent(e) in Struck(pose, ms)
            <==> exists i :: 0 <= i < |ms| && ms[i].entity == e && IsStruck(pose, ms[i])
  {
    if |ms| > 0 {
      var n := |ms| - 1;
      StruckMembers(pose, ms[..n], e);
      if exists i :: 0 <= i < |ms| && ms[i].entity == e && IsStruck(pose, ms[i]) {
        var i :| 0 <= i < |ms| && ms[i].entity == e && IsStruck(pose, ms[i]);
        if i < n {
          assert ms[..n][i] == ms[i];
        }
      }
    }
  }

  /** With distinct enemy entities, one attack hits each enemy at most once:
      once when it is struck, never otherwise (so never a dummy). */
  lemma {:induction false} StruckOnce(pose: PlayerPose, ms: seq<MierdaView>, i: nat)
    requires DistinctEnemies(ms) && i < |ms|
    ensures Count(Struck(pose, ms), MierdaHitEvent(ms[i].entity)) == if IsStruck(pose, ms[i]) then 1 else 0
  {
    var n := |ms| - 1;
    var init := ms[..n];
    var x := MierdaHitEvent(ms[i].entity);
    var last := if IsStruck(pose, ms[n]) then [MierdaHitEvent(ms[n].entity)] else [];
    assert Struck(pose, ms) == Struck(pose, init) + last;
    CountAppend(Struck(pose, init), last, x);
    assert last == [] + last;
    if i < n {
      assert init[i] == ms[i];
      assert DistinctEnemies(init) by {
        forall a, b | 0 <= a < b < |init| ensures init[a].entity != init[b].entity {
          assert init[a] == ms[a] && init[b] == ms[b];
        }
      }
      StruckOnce(pose, init, i);
      assert ms[n].entity != ms[i].entity;
    } else {
      StruckMembers(pose, init, ms[i].entity);
      CountAbsent(Struck(pose, init), x);
    }
  }

  /** The number of attack events whose player strikes `m`. */
  function StrikingAttacks(events: seq<PlayerAttackEvent>, players: map<Entity, PlayerPose>,
                           m: MierdaView): nat
    requires forall ev :: ev in events ==> ev.entity in players
  {
    if |events| == 0 then 0
    else
      StrikingAttacks(events[..|events| - 1], players, m)
      + (if IsStruck(players[events[|events| - 1].entity], m) then 1 else 0)
  }

  /** Over a whole run, each enemy receives exactly one hit per attack event
      that strikes it. */
  lemma {:induction false} AttackHitsPerEnemy(events: seq<PlayerAttackEvent>, players: map<Entity, PlayerPose>,
                                              ms: seq<MierdaView>, i: nat)
    requires forall ev :: ev in events ==> ev.entity in players
    requires DistinctEnemies(ms) && i < |ms|
    ensures Count(AttackHits(events, players, ms), MierdaHitEvent(ms[i].entity))
            == StrikingAttacks(events, players, ms[i])
  {
    if |events| > 0 {
      var n := |events| - 1;
      assert forall ev :: ev in events[..n] ==> ev in events;
      AttackHitsPerEnemy(events[..n], players, ms, i);
      CountAppend(AttackHits(events[..n], players, ms), Struck(players[events[n].entity], ms),
                  MierdaHitEvent(ms[i].entity));
      StruckOnce(players[events[n].entity], ms, i);
    }
  }

  /** The attack system. Every attack event looks up its player; every live
      enemy within reach and in front of the player gets a hit event. */
  method EventPlayerAttack(events: seq<PlayerAttackEvent>, players: map<Entity, PlayerPose>,
                           mierdas: seq<MierdaView>)
    returns (hits: seq<MierdaHitEvent>)
    requires forall ev :: ev in events ==> ev.entity in players
    ensures hits == AttackHits(events, players, mierdas)
  {
    hits := [];
    for i := 0 to |events|
      invariant hits == AttackHits(events[..i], players, mierdas)
    {
      assert events[..i + 1][..i] == events[..i];
      assert forall ev :: ev in events[..i] ==> ev in events;
      var pose := players[events[i].entity];
      var playerPosition := pose.position;
      ghost var before := hits;
      for j := 0 to |mierdas|
        invariant hits == before + Struck(pose, mierdas[..j])
      {
        assert mierdas[..j + 1][..j] == mierdas[..j];
        var m := mierdas[j];
        if m.isDummy {
          continue;
        }
        var distanceSquared := DistanceSquared(playerPosition, m.position);
        if distanceSquared >= 75.0 * 75.0 {
          continue;
        }
        var isAttacked := match pose.facing
          case Up => playerPosition.y < m.position.y
          case Down => playerPosition.y > m.position.y
          case Left => playerPosition.x > m.position.x
          case Right => playerPosition.x < m.position.x;
        if !isAttacked {
          continue;
        }
        hits := hits + [MierdaHitEvent(m.entity)];
      }
      assert mierdas[..|mierdas|] == mierdas;
    }
    assert events[..|events|] == events;
  }

  // =====================================================================
  // Enemy hit
  // =====================================================================

  /** The enemy components, the commands and the spawn requests after a run
      of the hit system. */
  datatype HitOutcome = HitOutcome(mierdas: map<Entity, Mierda>, cmds: seq<Command>,
                                   spawns: seq<SpawnMierdaEvent>)

  function Targets(events: seq<MierdaHitEvent>): (ts: seq<Entity>)
    ensures |ts| == |events|
    ensures forall i :: 0 <= i < |events| ==> ts[i] == events[i].target
  {
    seq(|events|, i requires 0 <= i < |events| => events[i].target)
  }

  /** Per player, a hit flashes the target and leaves its despawn pending. */
  function HitCommands(target: Entity): seq<Command>
  {
    [InsertFlashingTimer(target, HitTimer), DespawnAfter(target, DespawnDelayMs)]
  }

  /** Per player, a hit asks for replacements while the population is under the cap. */
  function Respawns(population: nat): seq<SpawnMierdaEvent>
  {
    if population < PopulationCap then [SpawnEvent(RespawnBatch)] else []
  }

  /** The outcome of hits on `targets` with `players` players present; the
      population is counted afresh at every event. */
  function MierdaHits(ms: map<Entity, Mierda>, targets: seq<Entity>, players: nat): (r: HitOutcome)
    requires players > 0 ==> forall t :: t in targets ==> t in ms
    ensures r.mierdas.Keys == ms.Keys
  {
    if |targets| == 0 then HitOutcome(ms, [], [])
    else
      var n := |targets| - 1;
      assert forall t :: t in targets[..n] ==> t in targets;
      var prev := MierdaHits(ms, targets[..n], players);
      HitByPlayers(prev, targets[n], players, |prev.mierdas|)
  }

  /** One hit on `t` handled for `k` players, with the population counted as `population`. */
  function HitByPlayers(s: HitOutcome, t: Entity, k: nat, population: nat): (r: HitOutcome)
    requires k > 0 ==> t in s.mierdas
    ensures r.mierdas.Keys == s.mierdas.Keys
  {
    HitOutcome(
      if k > 0 then s.mierdas[t := s.mierdas[t].(hitAt := Some(HitTimer))] else s.mierdas,
      s.cmds + Repeat(HitCommands(t), k),
      s.spawns + Repeat(Respawns(population), k))
  }

  /** With a player present, every target gets the flashing timer and nothing
      else of any enemy changes; no enemy is removed. */
  lemma {:induction false} MierdaHitsMark(ms: map<Entity, Mierda>, targets: seq<Entity>, players: nat, e: Entity)
    requires players > 0 ==> forall t :: t in targets ==> t in ms
    requires e in ms
    ensures MierdaHits(ms, targets, players).mierdas[e]
            == if players > 0 && e in targets then ms[e].(hitAt := Some(HitTimer)) else ms[e]
  {
    if |targets| > 0 {
      var n := |targets| - 1;
      assert forall t :: t in targets[..n] ==> t in targets;
      MierdaHitsMark(ms, targets[..n], players, e);
      assert targets == targets[..n] + [targets[n]];
    }
  }

  /** One spawn request for two per (hit, player) pair while the population,
      dummies included, is under the cap; none at or above it. */
  lemma {:induction false} MierdaHitsSpawns(ms: map<Entity, Mierda>, targets: seq<Entity>, players: nat)
    requires players > 0 ==> forall t :: t in targets ==> t in ms
    ensures MierdaHits(ms, targets, players).spawns
            == if |ms| < PopulationCap then Repeat(Repeat([SpawnEvent(2)], players), |targets|) else []
    ensures |MierdaHits(ms, targets, players).spawns| == if |ms| < PopulationCap then |targets| * players else 0
  {
    if |targets| > 0 {
      var n := |targets| - 1;
      assert forall t :: t in targets[..n] ==> t in targets;
      MierdaHitsSpawns(ms, targets[..n], players);
      var prev := MierdaHits(ms, targets[..n], players);
      assert MierdaHits(ms, targets, players).spawns == prev.spawns + Repeat(Respawns(|prev.mierdas|), players);
      SameKeysSameSize(prev.mierdas, ms);
      if |ms| < PopulationCap {
        RepeatLength(Repeat([SpawnEvent(2)], players), |targets|);
        RepeatLength([SpawnEvent(2)], players);
      } else {
        EmptyRepeat(Respawns(|ms|), players);
      }
    }
  }

  lemma SameKeysSameSize<K, V>(a: map<K, V>, b: map<K, V>)
    requires a.Keys == b.Keys
    ensures |a| == |b|
  {
    assert |a| == |a.Keys| && |b| == |b.Keys|;
  }

  lemma {:induction false} EmptyRepeat<T>(s: seq<T>, k: nat)
    requires s == []
    ensures Repeat(s, k) == []
  {
    if k > 0 {
      EmptyRepeat(s, k - 1);
    }
  }

  /** The commands of a run: per target, the hit commands once per player. */
  function AllHitCommands(targets: seq<Entity>, players: nat): seq<Command>
  {
    if |targets| == 0 then []
    else AllHitCommands(targets[..|targets| - 1], players) + Repeat(HitCommands(targets[|targets| - 1]), players)
  }

  lemma {:induction false} MierdaHitsCommands(ms: map<Entity, Mierda>, targets: seq<Entity>, players: nat)
    requires players > 0 ==> forall t :: t in targets ==> t in ms
    ensures MierdaHits(ms, targets, players).cmds == AllHitCommands(targets, players)
  {
    if |targets| > 0 {
      var n := |targets| - 1;
      assert forall t :: t in targets[..n] ==> t in targets;
      MierdaHitsCommands(ms, targets[..n], players);
    }
  }

  lemma {:induction false} AllHitCommandsDespawns(targets: seq<Entity>, players: nat, e: Entity)
    ensures Count(AllHitCommands(targets, players), DespawnAfter(e, DespawnDelayMs)) == players * Count(targets, e)
  {
    if |targets| > 0 {
      var n := |targets| - 1;
      var t := targets[n];
      AllHitCommandsDespawns(targets[..n], players, e);
      var despawn := DespawnAfter(e, DespawnDelayMs);
      var prev := AllHitCommands(targets[..n], players);
      var step := Repeat(HitCommands(t), players);
      CountAppend(prev, step, despawn);
      RepeatCount(HitCommands(t), players, despawn);
      HitCommandsDespawn(t, e);
      var before, now := Count(targets[..n], e), if t == e then 1 else 0;
      ScaledSum(Count(prev + step, despawn), Count(prev, despawn), Count(step, despawn), players, before, now);
    }
  }

  lemma {:induction false} AllHitCommandsKeep(targets: seq<Entity>, players: nat, e: Entity)
    ensures DespawnRecursive(e) !in AllHitCommands(targets, players)
  {
    if |targets| > 0 {
      var n := |targets| - 1;
      AllHitCommandsKeep(targets[..n], players, e);
      HitCommandsDespawn(targets[n], e);
      RepeatMembers(HitCommands(targets[n]), players);
    }
  }

  lemma ScaledSum(total: nat, a: nat, b: nat, k: nat, x: nat, y: nat)
    requires total == a + b && a == k * x && b == k * y
    ensures total == k * (x + y)
  {
    Distributes(k, x, y);
  }

  /** Each (hit, player) pair leaves exactly one pending despawn of the
      target, 0.3 s out; the system itself removes no enemy. */
  lemma MierdaHitsDespawns(ms: map<Entity, Mierda>, targets: seq<Entity>, players: nat, e: Entity)
    requires players > 0 ==> forall t :: t in targets ==> t in ms
    ensures Count(MierdaHits(ms, targets, players).cmds, DespawnAfter(e, DespawnDelayMs))
            == players * Count(targets, e)
    ensures DespawnRecursive(e) !in MierdaHits(ms, targets, players).cmds
  {
    MierdaHitsCommands(ms, targets, players);
    AllHitCommandsDespawns(targets, players, e);
    AllHitCommandsKeep(targets, players, e);
  }

  lemma HitCommandsDespawn(t: Entity, e: Entity)
    ensures Count(HitCommands(t), DespawnAfter(e, DespawnDelayMs)) == if t == e then 1 else 0
    ensures DespawnRecursive(e) !in HitCommands(t)
  {
    var flash: seq<Command> := [InsertFlashingTimer(t, HitTimer)];
    assert flash[..0] == [];
    assert Count(flash, DespawnAfter(e, DespawnDelayMs)) == 0;
    assert HitCommands(t)[..1] == flash;
  }

  /** One more target handled by the whole run is one more `HitByPlayers` step. */
  lemma MierdaHitsStep(ms: map<Entity, Mierda>, targets: seq<Entity>, players: nat, i: nat)
    requires players > 0 ==> forall t :: t in targets ==> t in ms
    requires i < |targets|
    ensures players > 0 ==> forall t :: t in targets[..i + 1] ==> t in ms
    ensures var prev := MierdaHits(ms, targets[..i], players);
            MierdaHits(ms, targets[..i + 1], players)
            == HitByPlayers(prev, targets[i], players, |prev.mierdas|)
  {
    assert targets[..i + 1][..i] == targets[..i];
    assert forall t :: t in targets[..i + 1] ==> t in targets;
  }

  /** The enemy-hit system. For every hit event the enemy count is taken;
      then for every player the target is given a 200 ms one-shot hit timer,
      the same timer as a flashing marker, a despawn pending 0.3 s, and, under
      the population cap, a request for two replacements. */
  method EventMierdaHit(w: World, events: seq<MierdaHitEvent>)
    returns (cmds: seq<Command>, spawns: seq<SpawnMierdaEvent>)
    requires |w.players| > 0 ==> forall ev :: ev in events ==> ev.target in w.mierdas
    modifies w`mierdas
    ensures var r := MierdaHits(old(w.mierdas), Targets(events), |w.players|);
            w.mierdas == r.mierdas && cmds == r.cmds && spawns == r.spawns
  {
    ghost var targets := Targets(events);
    ghost var initial := w.mierdas;
    var playerCount := |w.players|;
    assert playerCount > 0 ==> forall t :: t in targets ==> t in initial;
    cmds, spawns := [], [];
    for i := 0 to |events|
      invariant HitOutcome(w.mierdas, cmds, spawns) == MierdaHits(initial, targets[..i], playerCount)
    {
      MierdaHitsStep(initial, targets, playerCount, i);
      var losMierdasCount := |w.mierdas|;
      cmds, spawns := HitForEachPlayer(w, events[i].target, losMierdasCount, playerCount, cmds, spawns);
    }
    assert targets[..|events|] == targets;
  }

  /** The loop over the players inside the enemy-hit system, for one hit on
      `target` with the enemy count `population` taken before it, appending
      to the commands and spawn requests queued so far. */
  method HitForEachPlayer(w: World, target: Entity, population: nat, playerCount: nat,
                          cmdsBefore: seq<Command>, spawnsBefore: seq<SpawnMierdaEvent>)
    returns (cmds: seq<Command>, spawns: seq<SpawnMierdaEvent>)
    requires playerCount > 0 ==> target in w.mierdas
    modifies w`mierdas
    ensures HitOutcome(w.mierdas, cmds, spawns)
            == HitByPlayers(HitOutcome(old(w.mierdas), cmdsBefore, spawnsBefore), target, playerCount, population)
  {
    ghost var initial := HitOutcome(w.mierdas, cmdsBefore, spawnsBefore);
    cmds, spawns := cmdsBefore, spawnsBefore;
    for p := 0 to playerCount
      invariant HitOutcome(w.mierdas, cmds, spawns) == HitByPlayers(initial, target, p, population)
    {
      var timer := Timer(200, Once);
      var mierda := w.mierdas[target];
      w.mierdas := w.mierdas[target := mierda.(hitAt := Some(timer))];
      cmds := cmds + [InsertFlashingTimer(target, timer), DespawnAfter(target, 300)];
      if population < 256 {
        spawns := spawns + [SpawnEvent(2)];
      }
    }
  }

  // =====================================================================
  // Player hit
  // =====================================================================

  /** The player components, the health-bar widths and the number of
      game-over events sent. */
  datatype HudState = HudState(players: map<Entity, Player>, healthBars: seq<int>, gameOvers: nat)

  /** `n` bars all `width` wide. */
  function Filled(n: nat, width: int): seq<int>
  {
    seq(n, _ => width)
  }

  /** One hit on `target`. */
  function PlayerHit(s: HudState, target: Entity): (r: HudState)
    requires target in s.players
    ensures r.players.Keys == s.players.Keys && |r.healthBars| == |s.healthBars|
  {
    var health := s.players[target].health;
    if health < PlayerHitDamage then s.(gameOvers := s.gameOvers + 1)
    else
      s.(players := s.players[target := s.players[target].(health := health - PlayerHitDamage)],
         healthBars := Filled(|s.healthBars|, health - PlayerHitDamage))
  }

  /** A hit on a player below 10 health only sends a game-over event; any
      other hit takes exactly 10 health, sends nothing and sets every health
      bar to the new health. Other players never change. */
  lemma PlayerHitOutcome(s: HudState, target: Entity)
    requires target in s.players
    ensures var r := PlayerHit(s, target);
            var h := s.players[target].health;
            && (r.gameOvers == s.gameOvers + 1 <==> h < 10)
            && (r.gameOvers == s.gameOvers <==> h >= 10)
            && (h < 10 ==> r.players == s.players && r.healthBars == s.healthBars)
            && (h >= 10 ==> r.players[target].health == h - 10 && r.players[target].health >= 0
                            && forall k :: 0 <= k < |r.healthBars| ==> r.healthBars[k] == h - 10)
            && (forall e :: e in s.players && e != target ==> r.players[e] == s.players[e])
  {
  }

  /** A run of the player-hit system over `events`. */
  function PlayerHits(s: HudState, events: seq<PlayerHitEvent>): (r: HudState)
    requires forall ev :: ev in events ==> ev.entity in s.players
    ensures r.players.Keys == s.players.Keys && |r.healthBars| == |s.healthBars|
  {
    if |events| == 0 then s
    else
      var n := |events| - 1;
      assert forall ev :: ev in events[..n] ==> ev in events;
      PlayerHit(PlayerHits(s, events[..n]), events[n].entity)
  }

  /** Hits never drive a player's health below zero. */
  lemma {:induction false} PlayerHitsNonNegative(s: HudState, events: seq<PlayerHitEvent>, e: Entity)
    requires forall ev :: ev in events ==> ev.entity in s.players
    requires e in s.players && s.players[e].health >= 0
    ensures PlayerHits(s, events).players[e].health >= 0
  {
    if |events| > 0 {
      var n := |events| - 1;
      assert forall ev :: ev in events[..n] ==> ev in events;
      PlayerHitsNonNegative(s, events[..n], e);
    }
  }

  /** `n` hits on `e`. */
  function HitsOn(e: Entity, n: nat): seq<PlayerHitEvent>
  {
    seq(n, _ => PlayerHitEvent(e))
  }

  /** `n` hits on a player with health `h >= 0` take ten health `d` times,
      where `d` is the smaller of `n` and `h / 10`, and end the game once for
      each of the remaining `n - d` hits; the bars show the final health once
      any damage was taken and are untouched otherwise. */
  lemma {:induction false} RepeatedHits(s: HudState, e: Entity, n: nat)
    requires e in s.players && s.players[e].health >= 0
    ensures var h := s.players[e].health;
            var d := if n <= h / 10 then n else h / 10;
            var r := PlayerHits(s, HitsOn(e, n));
            && r.players == s.players[e := s.players[e].(health := h - 10 * d)]
            && r.gameOvers == s.gameOvers + (n - d)
            && r.healthBars == if d == 0 then s.healthBars else Filled(|s.healthBars|, h - 10 * d)
  {
    var h := s.players[e].health;
    if n == 0 {
      assert s.players[e := s.players[e].(health := h)] == s.players;
    } else {
      assert HitsOn(e, n)[..n - 1] == HitsOn(e, n - 1);
      RepeatedHits(s, e, n - 1);
      var prev := PlayerHits(s, HitsOn(e, n - 1));
      assert PlayerHits(s, HitsOn(e, n)) == PlayerHit(prev, e);
      if n <= h / 10 {
        assert prev.players[e].health == h - 10 * (n - 1) >= PlayerHitDamage;
      } else {
        assert prev.players[e].health == h - 10 * (h / 10) < PlayerHitDamage;
      }
    }
  }

  /** The player-hit system. A hit on a player below 10 health sends a
      game-over event; otherwise it takes 10 health and sets every health bar
      to the new health. */
  method EventPlayerHit(w: World, events: seq<PlayerHitEvent>) returns (gameOvers: seq<GameOverEvent>)
    requires forall ev :: ev in events ==> ev.entity in w.players
    modifies w`players, w`healthBars
    ensures PlayerHits(HudState(old(w.players), old(w.healthBars), 0), events)
            == HudState(w.players, w.healthBars, |gameOvers|)
  {
    ghost var initial := HudState(w.players, w.healthBars, 0);
    gameOvers := [];
    for i := 0 to |events|
      invariant w.players.Keys == initial.players.Keys
      invariant PlayerHits(initial, events[..i]) == HudState(w.players, w.healthBars, |gameOvers|)
    {
      assert events[..i + 1][..i] == events[..i];
      assert forall ev :: ev in events[..i] ==> ev in events;
      var entity := events[i].entity;
      assert PlayerHits(initial, events[..i + 1]) == PlayerHit(PlayerHits(initial, events[..i]), entity);
      var player := w.players[entity];
      if player.health < 10 {
        gameOvers := gameOvers + [GameOverEvent];
        continue;
      } else {
        w.players := w.players[entity := player.(health := player.health - 10)];
        var health := w.players[entity].health;
        var bars := |w.healthBars|;
        for b := 0 to bars
          modifies w`healthBars
          invariant |w.healthBars| == bars
          invariant forall k :: 0 <= k < b ==> w.healthBars[k] == health
        {
          w.healthBars := w.healthBars[b := health];
        }
        assert w.healthBars == Filled(bars, health);
      }
    }
    assert events[..|events|] == events;
  }

  // =====================================================================
  // Game over
  // =====================================================================

  /** The overlay visibilities after `n` game-over events. */
  function ShowGameOver(ui: seq<Visibility>, n: nat): seq<Visibility>
  {
    if n == 0 then ui else seq(|ShowGameOver(ui, n - 1)|, _ => Visible)
  }

  /** Any game-over event makes every overlay node visible; none leaves them as they were. */
  lemma {:induction false} ShowGameOverEffect(ui: seq<Visibility>, n: nat)
    ensures |ShowGameOver(ui, n)| == |ui|
    ensures n == 0 ==> ShowGameOver(ui, n) == ui
    ensures n > 0 ==> forall k :: 0 <= k < |ui| ==> ShowGameOver(ui, n)[k] == Visible
  {
    if n > 0 {
      ShowGameOverEffect(ui, n - 1);
    }
  }

  /** Showing the overlay again changes nothing. */
  lemma ShowGameOverIdempotent(ui: seq<Visibility>, n: nat, m: nat)
    requires n > 0
    ensures ShowGameOver(ShowGameOver(ui, n), m) == ShowGameOver(ui, n)
  {
    ShowGameOverEffect(ui, n);
    ShowGameOverEffect(ShowGameOver(ui, n), m);
  }

  /** The game-over system: every game-over event sets every overlay node visible. */
  method EventGameOver(w: World, events: seq<GameOverEvent>)
    modifies w`gameOverUi
    ensures w.gameOverUi == ShowGameOver(old(w.gameOverUi), |events|)
  {
    ghost var initial := w.gameOverUi;
    for i := 0 to |events|
      invariant w.gameOverUi == ShowGameOver(initial, i)
    {
      ShowGameOverEffect(initial, i);
      var nodes := |w.gameOverUi|;
      for k := 0 to nodes
        invariant |w.gameOverUi| == nodes
        invariant forall j :: 0 <= j < k ==> w.gameOverUi[j] == Visible
      {
        w.gameOverUi := w.gameOverUi[k := Visible];
      }
      assert w.gameOverUi == seq(nodes, _ => Visible);
    }
  }
}
