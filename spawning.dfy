/** The loop skeleton that both spawn systems share: for every spawn event,
    for every level row the selection matches, `count` passes over the
    prototype query, cloning every dummy whose parent is that level's entity.
    The skeleton is described by the list of clones it makes, in order. */
module Spawning {
  import opened Ecs

  /** A row of a prototype query (mierdas or biborans): the entity, its
      parent, and its is_dummy flag. */
  datatype PrototypeRow = PrototypeRow(entity: Entity, parent: Entity, isDummy: bool)

  /** A request to spawn `count` rounds of clones; enemies and collectibles
      are requested with events of this one shape. */
  datatype SpawnEvent = SpawnEvent(count: nat)

  function SpawnCounts(events: seq<SpawnEvent>): (counts: seq<nat>)
    ensures |counts| == |events|
    ensures forall i :: 0 <= i < |events| ==> counts[i] == events[i].count
  {
    seq(|events|, i requires 0 <= i < |events| => events[i].count)
  }

  /** One clone to make: copy `source` into a new child of `parent`, in the
      level described by `level`. */
  datatype Job = Job(source: Entity, parent: Entity, level: LevelRow)

  /** The rows a pass clones under `parent`: dummies whose parent is it. */
  predicate IsPrototype(r: PrototypeRow, parent: Entity)
  {
    r.isDummy && r.parent == parent
  }

  /** The clones made by one pass over the prototype query. */
  function PassJobs(rows: seq<PrototypeRow>, parent: Entity, level: LevelRow): seq<Job>
  {
    if |rows| == 0 then []
    else
      var r := rows[|rows| - 1];
      PassJobs(rows[..|rows| - 1], parent, level)
      + (if IsPrototype(r, parent) then [Job(r.entity, parent, level)] else [])
  }

  /** The clones one spawn event asking for `count` makes while walking the
      first `n` level rows. */
  function LevelJobs(count: nat, rows: seq<PrototypeRow>, levels: seq<LevelRow>, n: nat): seq<Job>
    requires n <= |levels|
  {
    if n == 0 then []
    else
      LevelJobs(count, rows, levels, n - 1)
      + (if levels[n - 1].isSelected
         then Repeat(PassJobs(rows, LevelParent(levels, n - 1), levels[n - 1]), count)
         else [])
  }

  /** The clones a whole run makes for spawn events asking for `counts`. */
  function SpawnJobs(counts: seq<nat>, rows: seq<PrototypeRow>, levels: seq<LevelRow>): seq<Job>
  {
    if |counts| == 0 then []
    else
      SpawnJobs(counts[..|counts| - 1], rows, levels)
      + LevelJobs(counts[|counts| - 1], rows, levels, |levels|)
  }

  // ----- The reference counts -----

  /** The number of dummy rows whose parent is `parent`. */
  function DummyCount(rows: seq<PrototypeRow>, parent: Entity): nat
  {
    |set i | 0 <= i < |rows| && IsPrototype(rows[i], parent)|
  }

  /** The number of prototypes under the selected level rows among the first `n`. */
  function SelectedPrototypes(rows: seq<PrototypeRow>, levels: seq<LevelRow>, n: nat): nat
    requires n <= |levels|
  {
    if n == 0 then 0
    else
      SelectedPrototypes(rows, levels, n - 1)
      + (if levels[n - 1].isSelected then DummyCount(rows, LevelParent(levels, n - 1)) else 0)
  }

  /** The number of clones requested by all events. */
  function Requested(counts: seq<nat>): nat
  {
    if |counts| == 0 then 0 else Requested(counts[..|counts| - 1]) + counts[|counts| - 1]
  }

  // ----- Counting -----

  lemma {:induction false} PassJobsLength(rows: seq<PrototypeRow>, parent: Entity, level: LevelRow)
    ensures |PassJobs(rows, parent, level)| == DummyCount(rows, parent)
    decreases |rows|
  {
    var protos := set i | 0 <= i < |rows| && IsPrototype(rows[i], parent);
    if |rows| == 0 {
      assert protos == {};
    } else {
      var n := |rows| - 1;
      var init := rows[..n];
      PassJobsLength(init, parent, level);
      var before := set i | 0 <= i < |init| && IsPrototype(init[i], parent);
      if IsPrototype(rows[n], parent) {
        assert protos == before + {n};
      } else {
        assert protos == before;
      }
    }
  }

  lemma {:induction false} LevelJobsLength(count: nat, rows: seq<PrototypeRow>, levels: seq<LevelRow>, n: nat)
    requires n <= |levels|
    ensures |LevelJobs(count, rows, levels, n)| == count * SelectedPrototypes(rows, levels, n)
  {
    if n > 0 {
      LevelJobsLength(count, rows, levels, n - 1);
      var d := 0;
      if levels[n - 1].isSelected {
        var pass := PassJobs(rows, LevelParent(levels, n - 1), levels[n - 1]);
        RepeatLength(pass, count);
        PassJobsLength(rows, LevelParent(levels, n - 1), levels[n - 1]);
        d := DummyCount(rows, LevelParent(levels, n - 1));
      }
      var before := SelectedPrototypes(rows, levels, n - 1);
      assert |LevelJobs(count, rows, levels, n)| == count * before + count * d;
      assert SelectedPrototypes(rows, levels, n) == before + d;
      Distributes(count, before, d);
    }
  }

  /** A run makes, per spawn event, `count` times as many clones as there are
      dummies under the selected levels. */
  lemma {:induction false} SpawnJobsLength(counts: seq<nat>, rows: seq<PrototypeRow>, levels: seq<LevelRow>)
    ensures |SpawnJobs(counts, rows, levels)| == Requested(counts) * SelectedPrototypes(rows, levels, |levels|)
  {
    if |counts| > 0 {
      var n := |counts| - 1;
      SpawnJobsLength(counts[..n], rows, levels);
      LevelJobsLength(counts[n], rows, levels, |levels|);
      var s := SelectedPrototypes(rows, levels, |levels|);
      var before := Requested(counts[..n]);
      assert |SpawnJobs(counts, rows, levels)| == before * s + counts[n] * s;
      Distributes(s, before, counts[n]);
    }
  }

  // ----- What each pass clones -----

  /** The number of rows of `rows` that hold the prototype `e` under `parent`. */
  function PrototypeCopies(rows: seq<PrototypeRow>, e: Entity, parent: Entity): nat
  {
    |set i | 0 <= i < |rows| && rows[i].entity == e && IsPrototype(rows[i], parent)|
  }

  /** One pass clones the prototype `e` once for every row holding it under
      `parent`. */
  lemma {:induction false} PassJobsCount(rows: seq<PrototypeRow>, parent: Entity, level: LevelRow, e: Entity)
    ensures Count(PassJobs(rows, parent, level), Job(e, parent, level)) == PrototypeCopies(rows, e, parent)
    decreases |rows|
  {
    var holders := set i | 0 <= i < |rows| && rows[i].entity == e && IsPrototype(rows[i], parent);
    if |rows| == 0 {
      assert holders == {};
    } else {
      var n := |rows| - 1;
      var init := rows[..n];
      var r := rows[n];
      PassJobsCount(init, parent, level, e);
      var last := if IsPrototype(r, parent) then [Job(r.entity, parent, level)] else [];
      CountAppend(PassJobs(init, parent, level), last, Job(e, parent, level));
      assert last == [] || last[..0] == [];
      var before := set i | 0 <= i < |init| && init[i].entity == e && IsPrototype(init[i], parent);
      if r.entity == e && IsPrototype(r, parent) {
        assert holders == before + {n};
      } else {
        assert holders == before;
      }
    }
  }

  /** Every prototype under `parent` is cloned by a pass. */
  lemma PassJobsComplete(rows: seq<PrototypeRow>, parent: Entity, level: LevelRow, i: nat)
    requires i < |rows| && IsPrototype(rows[i], parent)
    ensures Job(rows[i].entity, parent, level) in PassJobs(rows, parent, level)
  {
    var e := rows[i].entity;
    PassJobsCount(rows, parent, level, e);
    assert i in set k | 0 <= k < |rows| && rows[k].entity == e && IsPrototype(rows[k], parent);
    CountAbsent(PassJobs(rows, parent, level), Job(e, parent, level));
  }

  /** The `count` rounds for one level clone the prototype `e` `count` times
      for every row holding it under `parent`. */
  lemma RoundsCount(count: nat, rows: seq<PrototypeRow>, parent: Entity, level: LevelRow, e: Entity)
    ensures Count(Repeat(PassJobs(rows, parent, level), count), Job(e, parent, level))
            == count * PrototypeCopies(rows, e, parent)
  {
    RepeatCount(PassJobs(rows, parent, level), count, Job(e, parent, level));
    PassJobsCount(rows, parent, level, e);
  }

  /** A level row's clones never carry another level row. */
  lemma OtherLevelAbsent(count: nat, rows: seq<PrototypeRow>, parent: Entity, level: LevelRow, j: Job)
    requires j.level != level
    ensures Count(Repeat(PassJobs(rows, parent, level), count), j) == 0
  {
    PassJobsSources(rows, parent, level);
    RepeatMembers(PassJobs(rows, parent, level), count);
    CountAbsent(Repeat(PassJobs(rows, parent, level), count), j);
  }

  /** With distinct level rows, one spawn event asking for `count` clones the
      prototype `e` of the selected `l`-th level `count` times for every row
      holding it, and clones nothing for the level rows not yet walked. */
  lemma {:induction false} LevelJobsCount(count: nat, rows: seq<PrototypeRow>, levels: seq<LevelRow>, n: nat,
                                          l: nat, e: Entity)
    requires n <= |levels| && l < |levels| && levels[l].isSelected
    requires forall k :: 0 <= k < |levels| && k != l ==> levels[k] != levels[l]
    ensures Count(LevelJobs(count, rows, levels, n), Job(e, LevelParent(levels, l), levels[l]))
            == if l < n then count * PrototypeCopies(rows, e, LevelParent(levels, l)) else 0
  {
    if n > 0 {
      LevelJobsCount(count, rows, levels, n - 1, l, e);
      var j := Job(e, LevelParent(levels, l), levels[l]);
      var m := n - 1;
      var step := if levels[m].isSelected
                  then Repeat(PassJobs(rows, LevelParent(levels, m), levels[m]), count)
                  else [];
      CountAppend(LevelJobs(count, rows, levels, m), step, j);
      if m == l {
        RoundsCount(count, rows, LevelParent(levels, l), levels[l], e);
      } else if levels[m].isSelected {
        OtherLevelAbsent(count, rows, LevelParent(levels, m), levels[m], j);
      } else {
        assert step[..0] == [];
      }
    }
  }

  // ----- What each clone is made from -----

  /** A clone copies a dummy whose parent is the clone's parent, and that
      parent is the entity of a level row the selection matches. */
  ghost predicate Sourced(j: Job, rows: seq<PrototypeRow>, levels: seq<LevelRow>)
  {
    && (exists r :: r in rows && r.entity == j.source && IsPrototype(r, j.parent))
    && (exists l :: 0 <= l < |levels| && levels[l].isSelected && levels[l] == j.level
                    && LevelParent(levels, l) == j.parent)
  }

  lemma {:induction false} PassJobsSources(rows: seq<PrototypeRow>, parent: Entity, level: LevelRow)
    ensures forall j :: j in PassJobs(rows, parent, level) ==>
              j.parent == parent && j.level == level &&
              exists r :: r in rows && r.entity == j.source && IsPrototype(r, parent)
    decreases |rows|
  {
    if |rows| > 0 {
      var n := |rows| - 1;
      PassJobsSources(rows[..n], parent, level);
      forall j | j in PassJobs(rows, parent, level)
        ensures exists r :: r in rows && r.entity == j.source && IsPrototype(r, parent)
      {
        if j in PassJobs(rows[..n], parent, level) {
          var r :| r in rows[..n] && r.entity == j.source && IsPrototype(r, parent);
          assert r in rows;
        } else {
          assert rows[n] in rows;
        }
      }
    }
  }

  lemma {:induction false} LevelJobsSources(count: nat, rows: seq<PrototypeRow>, levels: seq<LevelRow>, n: nat)
    requires n <= |levels|
    ensures forall j :: j in LevelJobs(count, rows, levels, n) ==> Sourced(j, rows, levels)
  {
    if n > 0 {
      LevelJobsSources(count, rows, levels, n - 1);
      if levels[n - 1].isSelected {
        var parent := LevelParent(levels, n - 1);
        var pass := PassJobs(rows, parent, levels[n - 1]);
        RepeatMembers(pass, count);
        PassJobsSources(rows, parent, levels[n - 1]);
      }
    }
  }

  /** Every clone of a run copies a dummy under a selected level: non-dummies,
      and dummies under other levels, are never cloned. */
  lemma {:induction false} SpawnJobsSources(counts: seq<nat>, rows: seq<PrototypeRow>, levels: seq<LevelRow>)
    ensures forall j :: j in SpawnJobs(counts, rows, levels) ==> Sourced(j, rows, levels)
  {
    if |counts| > 0 {
      SpawnJobsSources(counts[..|counts| - 1], rows, levels);
      LevelJobsSources(counts[|counts| - 1], rows, levels, |levels|);
    }
  }
}
