/** The collectible ("biboran") entity: its bundle as loaded from the level,
    the spawn system that scatters clones of the level's dummies at random
    spots away from the player, the collision system that notices the player
    stepping on one, and the system that removes the one stepped on. */
module BiboranSystems {
  import opened Ecs
  import opened Spawning

  // =====================================================================
  // Bundle
  // =====================================================================

  /** The part of the collectible bundle the systems depend on; the sprite,
      the collider and the sensor marker are engine data. */
  datatype BiboranBundle = BiboranBundle(biboran: Biboran)

  /** A field value of a level entity instance. */
  datatype FieldValue =
    | BoolValue(b: bool)
    | IntValue(i: int)
    | StringValue(s: string)
    | NullValue

  /** The bundle with the given dummy flag. */
  function CreateBiboranBundle(isDummy: bool): (b: BiboranBundle)
    ensures b.biboran.isDummy == isDummy
  {
    BiboranBundle(Biboran(isDummy))
  }

  /** The bundle for a level entity instance, read from its boolean
      `is_dummy` field; `None` stands for the load panicking because the
      field is missing or not a boolean. */
  function BundleEntity(fields: map<string, FieldValue>): (r: Option<BiboranBundle>)
    ensures r.Some? <==> "is_dummy" in fields && fields["is_dummy"].BoolValue?
    ensures r.Some? ==> r.value.biboran.isDummy == fields["is_dummy"].b
  {
    if "is_dummy" in fields && fields["is_dummy"].BoolValue?
    then Some(CreateBiboranBundle(fields["is_dummy"].b))
    else None
  }

  // =====================================================================
  // Placement
  // =====================================================================

  /** A spawned collectible keeps at least this far from the player. */
  const MinPlayerDistance: real := 50.0
  /** A spawned collectible keeps at least this far inside the level's edges. */
  const EdgeMargin: real := 24.0
  /** The random offsets have a length below this. */
  const MaxOffset: real := 1000.0

  /** The condition the placement loop keeps drawing on: the candidate is
      too close to the player or too near an edge of the level. */
  predicate Rejected(player: Vec3, position: Vec3, level: LevelRow)
  {
    || DistanceSquared(player, position) < MinPlayerDistance * MinPlayerDistance
    || position.x < 0.0 + EdgeMargin
    || position.x > level.pxWid as real - EdgeMargin
    || position.y < 0.0 + EdgeMargin
    || position.y > level.pxHei as real - EdgeMargin
  }

  /** Where a collectible may be placed: at least 50 from the player and
      within the level shrunk by 24 on every side. */
  predicate InPlayArea(player: Vec3, position: Vec3, level: LevelRow)
  {
    && DistanceSquared(player, position) >= MinPlayerDistance * MinPlayerDistance
    && EdgeMargin <= position.x <= level.pxWid as real - EdgeMargin
    && EdgeMargin <= position.y <= level.pxHei as real - EdgeMargin
  }

  /** The candidate for a random offset: the player's position moved in the
      plane. */
  function Candidate(player: Vec3, offset: Vec2): Vec3
  {
    Add(player, Vec3(offset.x, offset.y, 0.0))
  }

  /** A placed collectible and how many random samples have been used. */
  datatype Placed = Placed(position: Vec3, cursor: nat)

  /** The placement loop run on the random samples `oracle[cursor..]`: the
      first candidate that is not rejected, or `None` when the samples run
      out first (the loop itself would then keep drawing forever). */
  function Placement(player: Vec3, level: LevelRow, oracle: seq<Vec2>, cursor: nat): (r: Option<Placed>)
    requires cursor <= |oracle|
    ensures r.Some? ==>
              && cursor < r.value.cursor <= |oracle|
              && r.value.position == Candidate(player, oracle[r.value.cursor - 1])
    decreases |oracle| - cursor
  {
    if cursor == |oracle| then None
    else
      var position := Candidate(player, oracle[cursor]);
      if Rejected(player, position, level) then Placement(player, level, oracle, cursor + 1)
      else Some(Placed(position, cursor + 1))
  }

  /** The placement is the first sample whose candidate is not rejected, and
      there is none exactly when every remaining candidate is rejected. */
  lemma {:induction false} PlacementFirst(player: Vec3, level: LevelRow, oracle: seq<Vec2>, cursor: nat)
    requires cursor <= |oracle|
    ensures var r := Placement(player, level, oracle, cursor);
            && (r.Some? ==>
                  && !Rejected(player, r.value.position, level)
                  && forall k :: cursor <= k < r.value.cursor - 1 ==> Rejected(player, Candidate(player, oracle[k]), level))
            && (r.None? <==> forall k :: cursor <= k < |oracle| ==> Rejected(player, Candidate(player, oracle[k]), level))
    decreases |oracle| - cursor
  {
    if cursor < |oracle| {
      PlacementFirst(player, level, oracle, cursor + 1);
    }
  }

  /** A candidate that is not rejected lies in the play area. */
  lemma Accepted(player: Vec3, position: Vec3, level: LevelRow)
    requires !Rejected(player, position, level)
    ensures InPlayArea(player, position, level)
  {
  }

  /** A placed collectible lies in the play area, at the player's depth. */
  lemma PlacementInPlayArea(player: Vec3, level: LevelRow, oracle: seq<Vec2>, cursor: nat)
    requires cursor <= |oracle|
    ensures var r := Placement(player, level, oracle, cursor);
            r.Some? ==> InPlayArea(player, r.value.position, level) && r.value.position.z == player.z
  {
    PlacementFirst(player, level, oracle, cursor);
    var r := Placement(player, level, oracle, cursor);
    if r.Some? {
      Accepted(player, r.value.position, level);
    }
  }

  /** No spot exists in a level narrower or lower than twice the margin, so
      the placement loop never ends there. */
  lemma {:induction false} NoRoom(player: Vec3, level: LevelRow, oracle: seq<Vec2>, cursor: nat)
    requires cursor <= |oracle|
    requires (level.pxWid as real) < 2.0 * EdgeMargin || (level.pxHei as real) < 2.0 * EdgeMargin
    ensures Placement(player, level, oracle, cursor) == None
    decreases |oracle| - cursor
  {
    if cursor < |oracle| {
      NoRoom(player, level, oracle, cursor + 1);
    }
  }

  /** A placed collectible lies less than 1000 from the player when every
      random offset is shorter than that. */
  lemma PlacementNearPlayer(player: Vec3, level: LevelRow, oracle: seq<Vec2>, cursor: nat)
    requires cursor <= |oracle|
    requires forall k :: 0 <= k < |oracle| ==> oracle[k].x * oracle[k].x + oracle[k].y * oracle[k].y < MaxOffset * MaxOffset
    ensures var r := Placement(player, level, oracle, cursor);
            r.Some? ==> DistanceSquared(player, r.value.position) < MaxOffset * MaxOffset
  {
    var r := Placement(player, level, oracle, cursor);
    if r.Some? {
      var o := oracle[r.value.cursor - 1];
      assert o.x * o.x + o.y * o.y < MaxOffset * MaxOffset;
      OffsetDistance(player, o);
      assert r.value.position == Candidate(player, o);
    }
  }

  /** A candidate lies as far from the player as its offset is long. */
  lemma OffsetDistance(player: Vec3, offset: Vec2)
    ensures DistanceSquared(player, Candidate(player, offset)) == offset.x * offset.x + offset.y * offset.y
  {
    var d := Sub(player, Candidate(player, offset));
    assert d == Vec3(-offset.x, -offset.y, 0.0);
    assert (-offset.x) * (-offset.x) == offset.x * offset.x;
    assert (-offset.y) * (-offset.y) == offset.y * offset.y;
  }

  /** The placement loop. It starts from the player's own position, which
      is always rejected, so at least one sample is drawn. */
  method PlaceBiboran(player: Vec3, level: LevelRow, oracle: seq<Vec2>, cursor: nat)
    returns (position: Vec3, next: nat, found: bool)
    requires cursor <= |oracle|
    ensures found <==> Placement(player, level, oracle, cursor).Some?
    ensures found ==> Placement(player, level, oracle, cursor) == Some(Placed(position, next))
    ensures found ==> next > cursor
  {
    var offset := Vec3(0.0, 0.0, 0.0);
    position := Add(player, offset);
    next := cursor;
    while Rejected(player, position, level) && next < |oracle|
      invariant cursor <= next <= |oracle|
      invariant Placement(player, level, oracle, cursor)
                == if Rejected(player, position, level) then Placement(player, level, oracle, next)
                   else Some(Placed(position, next))
      invariant next == cursor ==> position == player
      decreases |oracle| - next
    {
      var sample := oracle[next];
      offset := Vec3(sample.x, sample.y, 0.0);
      position := Add(player, offset);
      next := next + 1;
    }
    PlayerSpotRejected(player, level);
    found := !Rejected(player, position, level);
  }

  /** The player's own position is always rejected. */
  lemma PlayerSpotRejected(player: Vec3, level: LevelRow)
    ensures Rejected(player, player, level)
  {
    assert Sub(player, player) == Vec3(0.0, 0.0, 0.0);
  }

  // =====================================================================
  // Spawning
  // =====================================================================

  type SpawnBiboranEvent = SpawnEvent

  /** The scale every spawned collectible is drawn at. */
  const HalfScale: Vec3 := Vec3(0.5, 0.5, 0.5)

  /** The commands that make one collectible clone `child` for `job`, placed at `position`. */
  function BiboranClone(job: Job, child: Entity, position: Vec3): seq<Command>
  {
    [ SpawnChild(job.parent, child), InsertBiboran(child, Biboran(false)),
      CloneEntity(job.source, child), InsertTransform(child, Transform(position, HalfScale)) ]
  }

  /** The spots drawn so far and how many random samples they used. */
  datatype Drawn = Drawn(positions: seq<Vec3>, cursor: nat)

  /** One more spot drawn in `level` after `d`; `None` once a placement has
      run out of samples. */
  function DrawStep(d: Option<Drawn>, level: LevelRow, player: Vec3, oracle: seq<Vec2>): (r: Option<Drawn>)
    requires d.Some? ==> d.value.cursor <= |oracle|
    ensures r.Some? ==> d.Some? && |r.value.positions| == |d.value.positions| + 1 && r.value.cursor <= |oracle|
  {
    if d.None? then None
    else
      var placed := Placement(player, level, oracle, d.value.cursor);
      if placed.None? then None
      else Some(Drawn(d.value.positions + [placed.value.position], placed.value.cursor))
  }

  /** The placements of a list of clones, each drawn in its own level with
      the samples the previous ones left; `None` once a placement has run
      out of samples. */
  function Placements(jobs: seq<Job>, player: Vec3, oracle: seq<Vec2>): (r: Option<Drawn>)
    ensures r.Some? ==> |r.value.positions| == |jobs| && r.value.cursor <= |oracle|
  {
    if |jobs| == 0 then Some(Drawn([], 0))
    else
      var n := |jobs| - 1;
      DrawStep(Placements(jobs[..n], player, oracle), jobs[n].level, player, oracle)
  }

  lemma PlacementsSnoc(jobs: seq<Job>, job: Job, player: Vec3, oracle: seq<Vec2>)
    ensures Placements(jobs + [job], player, oracle) == DrawStep(Placements(jobs, player, oracle), job.level, player, oracle)
  {
    assert (jobs + [job])[..|jobs|] == jobs;
  }

  /** Every spot drawn lies in the play area of its clone's level, at the
      player's depth. */
  lemma {:induction false} PlacementsInPlayArea(jobs: seq<Job>, player: Vec3, oracle: seq<Vec2>)
    requires Placements(jobs, player, oracle).Some?
    ensures var ps := Placements(jobs, player, oracle).value.positions;
            forall k :: 0 <= k < |jobs| ==> InPlayArea(player, ps[k], jobs[k].level) && ps[k].z == player.z
  {
    if |jobs| > 0 {
      var n := |jobs| - 1;
      var prev := Placements(jobs[..n], player, oracle).value;
      PlacementsInPlayArea(jobs[..n], player, oracle);
      PlacementInPlayArea(player, jobs[n].level, oracle, prev.cursor);
    }
  }

  /** Once a placement runs out of samples, no later clone changes that. */
  lemma {:induction false} PlacementsStuck(jobs: seq<Job>, more: seq<Job>, player: Vec3, oracle: seq<Vec2>)
    requires Placements(jobs, player, oracle).None?
    ensures Placements(jobs + more, player, oracle).None?
    decreases |more|
  {
    if |more| == 0 {
      assert jobs + more == jobs;
    } else {
      var n := |more| - 1;
      PlacementsStuck(jobs, more[..n], player, oracle);
      assert jobs + more == (jobs + more[..n]) + [more[n]];
      PlacementsSnoc(jobs + more[..n], more[n], player, oracle);
    }
  }

  /** The commands for a list of clones whose children are allocated from
      `next` on and placed at `positions`. */
  function BiboranCommands(jobs: seq<Job>, next: nat, positions: seq<Vec3>): seq<Command>
    requires |positions| == |jobs|
  {
    if |jobs| == 0 then []
    else
      var n := |jobs| - 1;
      BiboranCommands(jobs[..n], next, positions[..n]) + BiboranClone(jobs[n], Fresh(next, n), positions[n])
  }

  lemma BiboranCommandsSnoc(jobs: seq<Job>, job: Job, next: nat, positions: seq<Vec3>, position: Vec3)
    requires |positions| == |jobs|
    ensures BiboranCommands(jobs + [job], next, positions + [position])
            == BiboranCommands(jobs, next, positions) + BiboranClone(job, Fresh(next, |jobs|), position)
  {
    assert (jobs + [job])[..|jobs|] == jobs;
    assert (positions + [position])[..|jobs|] == positions;
  }

  /** The `k`-th clone gets four commands in a row: a new child of the
      prototype's parent, a live collectible component, the copy of the
      prototype, and a half-scale transform at its spot. */
  lemma {:induction false} BiboranCommandsLayout(jobs: seq<Job>, next: nat, positions: seq<Vec3>)
    requires |positions| == |jobs|
    ensures |BiboranCommands(jobs, next, positions)| == 4 * |jobs|
    ensures forall k :: 0 <= k < |jobs| ==>
              && BiboranCommands(jobs, next, positions)[4 * k] == SpawnChild(jobs[k].parent, Fresh(next, k))
              && BiboranCommands(jobs, next, positions)[4 * k + 1] == InsertBiboran(Fresh(next, k), Biboran(false))
              && BiboranCommands(jobs, next, positions)[4 * k + 2] == CloneEntity(jobs[k].source, Fresh(next, k))
              && BiboranCommands(jobs, next, positions)[4 * k + 3]
                 == InsertTransform(Fresh(next, k), Transform(positions[k], HalfScale))
  {
    if |jobs| > 0 {
      var n := |jobs| - 1;
      BiboranCommandsLayout(jobs[..n], next, positions[..n]);
    }
  }

  /** A run that places everything makes four commands per clone, and
      `count` clones per event for every dummy under the selected levels. */
  lemma BiboranSpawnCount(counts: seq<nat>, rows: seq<PrototypeRow>, levels: seq<LevelRow>,
                          next: nat, positions: seq<Vec3>)
    requires |positions| == |SpawnJobs(counts, rows, levels)|
    ensures |BiboranCommands(SpawnJobs(counts, rows, levels), next, positions)|
            == 4 * (Requested(counts) * SelectedPrototypes(rows, levels, |levels|))
  {
    BiboranCommandsLayout(SpawnJobs(counts, rows, levels), next, positions);
    SpawnJobsLength(counts, rows, levels);
  }

  /** What the spawn loops have produced after the clones `jobs`: unless a
      placement has run out of samples, the spots drawn, the commands for
      them, and the next free entity slot. */
  ghost predicate SpawnedSoFar(jobs: seq<Job>, next: nat, player: Vec3, oracle: seq<Vec2>,
                               cmds: seq<Command>, positions: seq<Vec3>, cursor: nat, nextFree: nat, diverged: bool)
  {
    && (diverged <==> Placements(jobs, player, oracle).None?)
    && (!diverged ==>
          && Placements(jobs, player, oracle) == Some(Drawn(positions, cursor))
          && cmds == BiboranCommands(jobs, next, positions)
          && nextFree == next + |jobs|)
  }

  /** The collectible spawn system. Without a player it does nothing and
      leaves its events unread. Otherwise, for every spawn event, every level
      row the selection matches and every one of the event's `count` rounds,
      each dummy collectible whose parent is that level's entity gets a new
      sibling placed by the placement loop. `players` are the translations
      of the player entities; there is at most one, or the player lookup
      panics. `diverged` reports that a placement ran out of samples, where
      the system itself would never return. */
  method EventSpawnBiboran(events: seq<SpawnBiboranEvent>, levels: seq<LevelRow>, biborans: seq<PrototypeRow>,
                           players: seq<Vec3>, next: nat, oracle: seq<Vec2>)
    returns (cmds: seq<Command>, nextFree: nat, cursor: nat, diverged: bool)
    requires |players| <= 1
    ensures |players| == 0 ==> cmds == [] && nextFree == next && cursor == 0 && !diverged
    ensures |players| == 1 ==>
              var jobs := SpawnJobs(SpawnCounts(events), biborans, levels);
              var r := Placements(jobs, players[0], oracle);
              && (diverged <==> r.None?)
              && (!diverged ==>
                    && cursor == r.value.cursor
                    && cmds == BiboranCommands(jobs, next, r.value.positions)
                    && nextFree - next
                       == Requested(SpawnCounts(events)) * SelectedPrototypes(biborans, levels, |levels|))
  {
    cmds, nextFree, cursor, diverged := [], next, 0, false;
    if |players| == 0 {
      return;
    }
    var player := players[0];
    ghost var counts := SpawnCounts(events);
    ghost var positions: seq<Vec3> := [];
    for i := 0 to |events|
      invariant SpawnedSoFar(SpawnJobs(counts[..i], biborans, levels), next, player, oracle,
                             cmds, positions, cursor, nextFree, diverged)
    {
      assert counts[..i + 1][..i] == counts[..i];
      cmds, positions, cursor, nextFree, diverged :=
        BiboranForLevels(events[i].count, levels, biborans, next, player, oracle,
                         SpawnJobs(counts[..i], biborans, levels), cmds, positions, cursor, nextFree, diverged);
    }
    assert counts[..|events|] == counts;
    SpawnJobsLength(counts, biborans, levels);
  }

  /** The loop over the level rows for one spawn event asking for `count`,
      continuing a run whose clones so far are `done`. */
  method BiboranForLevels(count: nat, levels: seq<LevelRow>, biborans: seq<PrototypeRow>,
                          next: nat, player: Vec3, oracle: seq<Vec2>, ghost done: seq<Job>,
                          cmdsBefore: seq<Command>, ghost positionsBefore: seq<Vec3>, cursorBefore: nat,
                          nextBefore: nat, divergedBefore: bool)
    returns (cmds: seq<Command>, ghost positions: seq<Vec3>, cursor: nat, nextFree: nat, diverged: bool)
    requires SpawnedSoFar(done, next, player, oracle, cmdsBefore, positionsBefore, cursorBefore, nextBefore, divergedBefore)
    ensures SpawnedSoFar(done + LevelJobs(count, biborans, levels, |levels|), next, player, oracle,
                         cmds, positions, cursor, nextFree, diverged)
  {
    cmds, positions, cursor, nextFree, diverged := cmdsBefore, positionsBefore, cursorBefore, nextBefore, divergedBefore;
    assert done + LevelJobs(count, biborans, levels, 0) == done;
    for l := 0 to |levels|
      invariant SpawnedSoFar(done + LevelJobs(count, biborans, levels, l), next, player, oracle,
                             cmds, positions, cursor, nextFree, diverged)
    {
      cmds, positions, cursor, nextFree, diverged :=
        BiboranForLevel(count, levels, l, biborans, next, player, oracle, done,
                        cmds, positions, cursor, nextFree, diverged);
    }
  }

  /** The body of the level loop for the `l`-th level row. */
  method BiboranForLevel(count: nat, levels: seq<LevelRow>, l: nat, biborans: seq<PrototypeRow>,
                         next: nat, player: Vec3, oracle: seq<Vec2>, ghost done: seq<Job>,
                         cmdsBefore: seq<Command>, ghost positionsBefore: seq<Vec3>, cursorBefore: nat,
                         nextBefore: nat, divergedBefore: bool)
    returns (cmds: seq<Command>, ghost positions: seq<Vec3>, cursor: nat, nextFree: nat, diverged: bool)
    requires l < |levels|
    requires SpawnedSoFar(done + LevelJobs(count, biborans, levels, l), next, player, oracle,
                          cmdsBefore, positionsBefore, cursorBefore, nextBefore, divergedBefore)
    ensures SpawnedSoFar(done + LevelJobs(count, biborans, levels, l + 1), next, player, oracle,
                         cmds, positions, cursor, nextFree, diverged)
  {
    cmds, positions, cursor, nextFree, diverged := cmdsBefore, positionsBefore, cursorBefore, nextBefore, divergedBefore;
    ghost var before := done + LevelJobs(count, biborans, levels, l);
    if levels[l].isSelected {
      var parent := levels[FirstWithHandle(levels, levels[l].handle)].entity;
      cmds, positions, cursor, nextFree, diverged :=
        BiboranRounds(count, biborans, parent, levels[l], next, player, oracle,
                      before, cmds, positions, cursor, nextFree, diverged);
      assert done + LevelJobs(count, biborans, levels, l + 1)
             == before + Repeat(PassJobs(biborans, parent, levels[l]), count);
    } else {
      assert done + LevelJobs(count, biborans, levels, l + 1) == before;
    }
  }

  /** The `count` rounds for one spawn event and one level row whose entity
      is `parent`, continuing a run whose clones so far are `done`. */
  method BiboranRounds(count: nat, biborans: seq<PrototypeRow>, parent: Entity, level: LevelRow,
                       next: nat, player: Vec3, oracle: seq<Vec2>, ghost done: seq<Job>,
                       cmdsBefore: seq<Command>, ghost positionsBefore: seq<Vec3>, cursorBefore: nat,
                       nextBefore: nat, divergedBefore: bool)
    returns (cmds: seq<Command>, ghost positions: seq<Vec3>, cursor: nat, nextFree: nat, diverged: bool)
    requires SpawnedSoFar(done, next, player, oracle, cmdsBefore, positionsBefore, cursorBefore, nextBefore, divergedBefore)
    ensures SpawnedSoFar(done + Repeat(PassJobs(biborans, parent, level), count), next, player, oracle,
                         cmds, positions, cursor, nextFree, diverged)
  {
    ghost var pass := PassJobs(biborans, parent, level);
    cmds, positions, cursor, nextFree, diverged := cmdsBefore, positionsBefore, cursorBefore, nextBefore, divergedBefore;
    assert done + Repeat(pass, 0) == done;
    for k := 0 to count
      invariant SpawnedSoFar(done + Repeat(pass, k), next, player, oracle, cmds, positions, cursor, nextFree, diverged)
    {
      cmds, positions, cursor, nextFree, diverged :=
        BiboranForPrototypes(biborans, parent, level, next, player, oracle,
                             done + Repeat(pass, k), cmds, positions, cursor, nextFree, diverged);
      assert done + Repeat(pass, k + 1) == done + Repeat(pass, k) + pass;
    }
  }

  /** One pass over the collectible query under `parent`, continuing a run
      whose clones so far are `done`: non-dummies and dummies of other
      parents are skipped. */
  method BiboranForPrototypes(biborans: seq<PrototypeRow>, parent: Entity, level: LevelRow,
                              next: nat, player: Vec3, oracle: seq<Vec2>, ghost done: seq<Job>,
                              cmdsBefore: seq<Command>, ghost positionsBefore: seq<Vec3>, cursorBefore: nat,
                              nextBefore: nat, divergedBefore: bool)
    returns (cmds: seq<Command>, ghost positions: seq<Vec3>, cursor: nat, nextFree: nat, diverged: bool)
    requires SpawnedSoFar(done, next, player, oracle, cmdsBefore, positionsBefore, cursorBefore, nextBefore, divergedBefore)
    ensures SpawnedSoFar(done + PassJobs(biborans, parent, level), next, player, oracle,
                         cmds, positions, cursor, nextFree, diverged)
  {
    cmds, positions, cursor, nextFree, diverged := cmdsBefore, positionsBefore, cursorBefore, nextBefore, divergedBefore;
    assert done + PassJobs(biborans[..0], parent, level) == done;
    for j := 0 to |biborans|
      invariant SpawnedSoFar(done + PassJobs(biborans[..j], parent, level), next, player, oracle,
                             cmds, positions, cursor, nextFree, diverged)
    {
      cmds, positions, cursor, nextFree, diverged :=
        BiboranForPrototype(biborans, j, parent, level, next, player, oracle, done,
                            cmds, positions, cursor, nextFree, diverged);
    }
    assert biborans[..|biborans|] == biborans;
  }

  /** The body of the prototype loop for the `j`-th collectible row. */
  method BiboranForPrototype(biborans: seq<PrototypeRow>, j: nat, parent: Entity, level: LevelRow,
                             next: nat, player: Vec3, oracle: seq<Vec2>, ghost done: seq<Job>,
                             cmdsBefore: seq<Command>, ghost positionsBefore: seq<Vec3>, cursorBefore: nat,
                             nextBefore: nat, divergedBefore: bool)
    returns (cmds: seq<Command>, ghost positions: seq<Vec3>, cursor: nat, nextFree: nat, diverged: bool)
    requires j < |biborans|
    requires SpawnedSoFar(done + PassJobs(biborans[..j], parent, level), next, player, oracle,
                          cmdsBefore, positionsBefore, cursorBefore, nextBefore, divergedBefore)
    ensures SpawnedSoFar(done + PassJobs(biborans[..j + 1], parent, level), next, player, oracle,
                         cmds, positions, cursor, nextFree, diverged)
  {
    cmds, positions, cursor, nextFree, diverged := cmdsBefore, positionsBefore, cursorBefore, nextBefore, divergedBefore;
    assert biborans[..j + 1][..j] == biborans[..j];
    ghost var jobs := done + PassJobs(biborans[..j], parent, level);
    var b := biborans[j];
    if !b.isDummy {
      assert done + PassJobs(biborans[..j + 1], parent, level) == jobs;
      return;
    }
    if parent != b.parent {
      assert done + PassJobs(biborans[..j + 1], parent, level) == jobs;
      return;
    }
    ghost var job := Job(b.entity, parent, level);
    assert done + PassJobs(biborans[..j + 1], parent, level) == jobs + [job];
    PlacementsSnoc(jobs, job, player, oracle);
    if diverged {
      return;
    }
    var child := Entity(nextFree, 0);
    var position, after, found := PlaceBiboran(player, level, oracle, cursor);
    if !found {
      diverged := true;
      return;
    }
    var transform := Transform(position, Vec3(0.5, 0.5, 0.5));
    cmds := cmds + [SpawnChild(b.parent, child), InsertBiboran(child, Biboran(false)),
                    CloneEntity(b.entity, child), InsertTransform(child, transform)];
    BiboranCommandsSnoc(jobs, job, next, positions, position);
    positions := positions + [position];
    cursor := after;
    nextFree := nextFree + 1;
  }

  // =====================================================================
  // Stepping over a collectible
  // =====================================================================

  datatype BiboranStepOverEvent = BiboranStepOverEvent(biboran: Entity)

  function StepTargets(events: seq<BiboranStepOverEvent>): (ts: seq<Entity>)
    ensures |ts| == |events|
    ensures forall i :: 0 <= i < |events| ==> ts[i] == events[i].biboran
  {
    seq(|events|, i requires 0 <= i < |events| => events[i].biboran)
  }

  /** The despawns one step-over event queues: every collectible equal to its target. */
  function Despawns(target: Entity, biborans: seq<Entity>): seq<Command>
  {
    if |biborans| == 0 then []
    else
      var b := biborans[|biborans| - 1];
      Despawns(target, biborans[..|biborans| - 1]) + (if b == target then [DespawnRecursive(b)] else [])
  }

  /** The despawns a run of the step-over system queues. */
  function StepOver(events: seq<BiboranStepOverEvent>, biborans: seq<Entity>): seq<Command>
  {
    if |events| == 0 then []
    else StepOver(events[..|events| - 1], biborans) + Despawns(events[|events| - 1].biboran, biborans)
  }

  /** The step-over system. The player loop's body (a health bonus) is
      commented out in the program, so the system reads no player state and
      changes none; it only despawns the stepped-on collectibles. */
  method EventOnBiboranStepOver(events: seq<BiboranStepOverEvent>, biborans: seq<Entity>)
    returns (cmds: seq<Command>)
    ensures cmds == StepOver(events, biborans)
  {
    cmds := [];
    for i := 0 to |events|
      invariant cmds == StepOver(events[..i], biborans)
    {
      assert events[..i + 1][..i] == events[..i];
      ghost var before := cmds;
      var target := events[i].biboran;
      for j := 0 to |biborans|
        invariant cmds == before + Despawns(target, biborans[..j])
      {
        assert biborans[..j + 1][..j] == biborans[..j];
        var b := biborans[j];
        if b != target {
          continue;
        }
        cmds := cmds + [DespawnRecursive(b)];
      }
      assert biborans[..|biborans|] == biborans;
    }
    assert events[..|events|] == events;
  }

  lemma {:induction false} DespawnsCount(target: Entity, biborans: seq<Entity>, x: Entity)
    ensures Count(Despawns(target, biborans), DespawnRecursive(x)) == if x == target then Count(biborans, x) else 0
    ensures forall c :: c in Despawns(target, biborans) ==> c == DespawnRecursive(target) && target in biborans
  {
    if |biborans| > 0 {
      var n := |biborans| - 1;
      DespawnsCount(target, biborans[..n], x);
      var last: seq<Command> := if biborans[n] == target then [DespawnRecursive(biborans[n])] else [];
      CountAppend(Despawns(target, biborans[..n]), last, DespawnRecursive(x));
      assert last == [] || last[..0] == [];
      assert forall b :: b in biborans[..n] ==> b in biborans;
    }
  }

  /** Every collectible named by a step-over event is despawned once per
      such event (and per occurrence in the query, where entities are
      distinct); nothing else is despawned. */
  lemma {:induction false} StepOverCount(events: seq<BiboranStepOverEvent>, biborans: seq<Entity>, x: Entity)
    ensures Count(StepOver(events, biborans), DespawnRecursive(x))
            == Count(StepTargets(events), x) * Count(biborans, x)
  {
    if |events| > 0 {
      var n := |events| - 1;
      var target := events[n].biboran;
      StepOverCount(events[..n], biborans, x);
      CountAppend(StepOver(events[..n], biborans), Despawns(target, biborans), DespawnRecursive(x));
      DespawnsCount(target, biborans, x);
      var ts := StepTargets(events);
      assert ts[..n] == StepTargets(events[..n]);
      var before, now := Count(ts[..n], x), if ts[n] == x then 1 else 0;
      assert Count(ts, x) == before + now;
      Distributes(Count(biborans, x), before, now);
    }
  }

  /** The system queues nothing but despawns of collectibles that some
      step-over event names. */
  lemma {:induction false} StepOverOnlyTargets(events: seq<BiboranStepOverEvent>, biborans: seq<Entity>)
    ensures forall c :: c in StepOver(events, biborans) ==>
              c.DespawnRecursive? && c.target in biborans && c.target in StepTargets(events)
  {
    if |events| > 0 {
      var n := |events| - 1;
      StepOverOnlyTargets(events[..n], biborans);
      var x := events[n].biboran;
      DespawnsCount(events[n].biboran, biborans, x);
      var ts := StepTargets(events);
      assert ts[..n] == StepTargets(events[..n]);
      assert forall t :: t in ts[..n] ==> t in ts;
      assert ts[n] == x;
    }
  }

  // =====================================================================
  // Collision
  // =====================================================================

  /** A physics contact between two entities beginning or ending. */
  datatype CollisionEvent = Started(e1: Entity, e2: Entity) | Stopped(e1: Entity, e2: Entity)

  /** The contact is a beginning between `biboran` and `player`, in either
      order, comparing slot indices only. */
  predicate Touches(ev: CollisionEvent, biboran: Entity, player: Entity)
  {
    && ev.Started?
    && ((ev.e1.index == biboran.index && ev.e2.index == player.index)
        || (ev.e2.index == biboran.index && ev.e1.index == player.index))
  }

  /** The first collectible in query order that the contact touches. */
  function FirstTouching(ev: CollisionEvent, player: Entity, biborans: seq<Entity>): (r: Option<Entity>)
    ensures r.Some? ==> r.value in biborans && Touches(ev, r.value, player)
    ensures r.None? <==> forall b :: b in biborans ==> !Touches(ev, b, player)
  {
    if |biborans| == 0 then None
    else if Touches(ev, biborans[0], player) then Some(biborans[0])
    else
      assert forall b :: b in biborans[1..] ==> b in biborans;
      assert forall b :: b in biborans ==> b == biborans[0] || b in biborans[1..];
      FirstTouching(ev, player, biborans[1..])
  }

  lemma {:induction false} FirstTouchingAt(ev: CollisionEvent, player: Entity, biborans: seq<Entity>, j: nat)
    requires j < |biborans| && Touches(ev, biborans[j], player)
    requires forall k :: 0 <= k < j ==> !Touches(ev, biborans[k], player)
    ensures FirstTouching(ev, player, biborans) == Some(biborans[j])
  {
    if j > 0 {
      FirstTouchingAt(ev, player, biborans[1..], j - 1);
    }
  }

  /** What a run of the collision system produced: the step-over event it
      sent, if any, and how many contact events it consumed. */
  datatype Detection = Detection(stepOver: Option<BiboranStepOverEvent>, read: nat)

  /** The scan of the contact events from `from` on for `player`: the first
      contact touching some collectible ends the run. */
  function Scan(player: Entity, collisions: seq<CollisionEvent>, biborans: seq<Entity>, from: nat): (r: Detection)
    requires from <= |collisions|
    ensures from <= r.read <= |collisions|
    ensures r.stepOver.None? <==>
              forall k :: from <= k < |collisions| ==> FirstTouching(collisions[k], player, biborans).None?
    ensures r.stepOver.None? ==> r.read == |collisions|
    ensures r.stepOver.Some? ==>
              && from < r.read
              && Some(r.stepOver.value.biboran) == FirstTouching(collisions[r.read - 1], player, biborans)
              && forall k :: from <= k < r.read - 1 ==> FirstTouching(collisions[k], player, biborans).None?
    decreases |collisions| - from
  {
    if from == |collisions| then Detection(None, from)
    else
      match FirstTouching(collisions[from], player, biborans)
      case Some(b) => Detection(Some(BiboranStepOverEvent(b)), from + 1)
      case None => Scan(player, collisions, biborans, from + 1)
  }

  /** A run of the collision system. The contact reader is shared by the
      loop over players, so the first player consumes every event and the
      others see none: only the first player can be detected. */
  function Collide(players: seq<Entity>, collisions: seq<CollisionEvent>, biborans: seq<Entity>): Detection
  {
    if |players| == 0 then Detection(None, 0) else Scan(players[0], collisions, biborans, 0)
  }

  /** The collision system: for every player, every unread contact and every
      collectible, a beginning contact between the two (either order, by
      index) sends a step-over event for the collectible and ends the run. */
  method HandlePlayerBiboranCollision(players: seq<Entity>, collisions: seq<CollisionEvent>, biborans: seq<Entity>)
    returns (stepOver: Option<BiboranStepOverEvent>, read: nat)
    ensures Detection(stepOver, read) == Collide(players, collisions, biborans)
  {
    stepOver, read := None, 0;
    for p := 0 to |players|
      invariant read <= |collisions|
      invariant p == 0 ==> read == 0
      invariant p > 0 ==> read == |collisions| && Collide(players, collisions, biborans) == Detection(None, read)
    {
      var player := players[p];
      while read < |collisions|
        invariant read <= |collisions|
        invariant Collide(players, collisions, biborans) == Scan(player, collisions, biborans, read)
      {
        var event := collisions[read];
        read := read + 1;
        for j := 0 to |biborans|
          invariant forall k :: 0 <= k < j ==> !Touches(event, biborans[k], player)
        {
          var b := biborans[j];
          if event.Started? {
            if event.e1.index == b.index && event.e2.index == player.index {
              stepOver := Some(BiboranStepOverEvent(b));
              FirstTouchingAt(event, player, biborans, j);
              return;
            }
            if event.e2.index == b.index && event.e1.index == player.index {
              stepOver := Some(BiboranStepOverEvent(b));
              FirstTouchingAt(event, player, biborans, j);
              return;
            }
          }
        }
        assert forall b :: b in biborans ==> !Touches(event, b, player);
      }
    }
  }

  /** Two contacts the collision system cannot tell apart: the same kind,
      between entities with the same slot indices, in either order. */
  predicate SameContact(a: CollisionEvent, b: CollisionEvent)
  {
    && a.Started? == b.Started?
    && ((a.e1.index == b.e1.index && a.e2.index == b.e2.index)
        || (a.e1.index == b.e2.index && a.e2.index == b.e1.index))
  }

  lemma {:induction false} FirstTouchingSame(a: CollisionEvent, b: CollisionEvent, player: Entity, biborans: seq<Entity>)
    requires SameContact(a, b)
    ensures FirstTouching(a, player, biborans) == FirstTouching(b, player, biborans)
  {
    if |biborans| > 0 {
      FirstTouchingSame(a, b, player, biborans[1..]);
    }
  }

  lemma {:induction false} ScanSame(player: Entity, other: Entity, cs: seq<CollisionEvent>, ds: seq<CollisionEvent>,
                                    biborans: seq<Entity>, from: nat)
    requires player.index == other.index
    requires |cs| == |ds| && from <= |cs|
    requires forall k :: 0 <= k < |cs| ==> SameContact(cs[k], ds[k])
    ensures Scan(player, cs, biborans, from) == Scan(other, ds, biborans, from)
    decreases |cs| - from
  {
    if from < |cs| {
      FirstTouchingSame(cs[from], ds[from], player, biborans);
      FirstTouchingPlayer(ds[from], player, other, biborans);
      ScanSame(player, other, cs, ds, biborans, from + 1);
    }
  }

  lemma {:induction false} FirstTouchingPlayer(ev: CollisionEvent, player: Entity, other: Entity, biborans: seq<Entity>)
    requires player.index == other.index
    ensures FirstTouching(ev, player, biborans) == FirstTouching(ev, other, biborans)
  {
    if |biborans| > 0 {
      FirstTouchingPlayer(ev, player, other, biborans[1..]);
    }
  }

  /** The collision system sees contacts by slot index only and regardless
      of which side the player is on: swapping the two entities of a contact,
      or changing the generations of the entities involved (the player's
      included), does not change the run. */
  lemma CollideByIndex(players: seq<Entity>, others: seq<Entity>, cs: seq<CollisionEvent>, ds: seq<CollisionEvent>,
                       biborans: seq<Entity>)
    requires |players| == |others| && (|players| > 0 ==> players[0].index == others[0].index)
    requires |cs| == |ds|
    requires forall k :: 0 <= k < |cs| ==> SameContact(cs[k], ds[k])
    ensures Collide(players, cs, biborans) == Collide(others, ds, biborans)
  {
    if |players| > 0 {
      ScanSame(players[0], others[0], cs, ds, biborans, 0);
    }
  }

  /** Contacts that end never lead to a step-over. */
  lemma StoppedNeverSteps(players: seq<Entity>, cs: seq<CollisionEvent>, biborans: seq<Entity>)
    requires forall k :: 0 <= k < |cs| ==> cs[k].Stopped?
    ensures Collide(players, cs, biborans).stepOver == None
  {
    if |players| > 0 {
      forall k | 0 <= k < |cs|
        ensures FirstTouching(cs[k], players[0], biborans).None?
      {
      }
    }
  }
}
