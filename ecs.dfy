/** The engine-side vocabulary the gameplay systems work with: entity
    handles, vectors, the components they read and write, the level rows of
    the LDtk world, and the deferred commands a system queues. */
module Ecs {

  datatype Option<T> = None | Some(value: T)

  /** An engine entity handle: a slot index and the generation of that slot. */
  datatype Entity = Entity(index: nat, generation: nat)

  /** The entity the allocator hands out `k` reservations after the first free
      slot `next`. */
  function Fresh(next: nat, k: nat): Entity
  {
    Entity(next + k, 0)
  }

  datatype Vec2 = Vec2(x: real, y: real)

  datatype Vec3 = Vec3(x: real, y: real, z: real)

  function Add(a: Vec3, b: Vec3): Vec3
  {
    Vec3(a.x + b.x, a.y + b.y, a.z + b.z)
  }

  function Sub(a: Vec3, b: Vec3): Vec3
  {
    Vec3(a.x - b.x, a.y - b.y, a.z - b.z)
  }

  /** The square of a vector's length; lengths are compared through their
      squares (for d >= 0, d < c holds exactly when d * d < c * c). */
  function LengthSquared(v: Vec3): real
  {
    v.x * v.x + v.y * v.y + v.z * v.z
  }

  function DistanceSquared(a: Vec3, b: Vec3): real
  {
    LengthSquared(Sub(a, b))
  }

  datatype TimerMode = Once | Repeating

  datatype Timer = Timer(durationMs: nat, mode: TimerMode)

  datatype Visibility = Inherited | Hidden | Visible

  /** The enemy component. */
  datatype Mierda = Mierda(isDummy: bool, health: int, moveDirection: Vec2, hitAt: Option<Timer>)

  /** The collectible component. */
  datatype Biboran = Biboran(isDummy: bool)

  /** The part of the player component the systems touch. */
  datatype Player = Player(health: int)

  datatype Transform = Transform(translation: Vec3, scale: Vec3)

  /** The deferred commands the systems queue; the engine applies them after
      the system returns. */
  datatype Command =
    | SpawnChild(parent: Entity, child: Entity)
    | InsertMierda(target: Entity, mierda: Mierda)
    | InsertBiboran(target: Entity, biboran: Biboran)
    | InsertFlashingTimer(target: Entity, timer: Timer)
    | InsertTransform(target: Entity, transform: Transform)
    | CloneEntity(source: Entity, destination: Entity)
    | DespawnRecursive(target: Entity)
      /** a recursive despawn of `target` left pending for `delayMs` */
    | DespawnAfter(target: Entity, delayMs: nat)

  /** A row of the level query: the level's entity, its asset handle, whether
      the current level selection matches it, and its size in pixels. */
  datatype LevelRow = LevelRow(entity: Entity, handle: nat, isSelected: bool, pxWid: int, pxHei: int)

  /** The position of the first row of `levels` holding `handle`, which is
      where the entity search of the spawn systems stops. */
  function FirstWithHandle(levels: seq<LevelRow>, handle: nat): (i: nat)
    requires exists k :: 0 <= k < |levels| && levels[k].handle == handle
    ensures i < |levels| && levels[i].handle == handle
    ensures forall k :: 0 <= k < i ==> levels[k].handle != handle
  {
    if levels[0].handle == handle then 0
    else
      var k :| 0 <= k < |levels| && levels[k].handle == handle;
      assert levels[1..][k - 1].handle == handle;
      1 + FirstWithHandle(levels[1..], handle)
  }

  /** The parent entity the spawn systems attach clones to for the `l`-th
      level row: the entity of the first row with the same handle. */
  function LevelParent(levels: seq<LevelRow>, l: nat): Entity
    requires l < |levels|
  {
    levels[FirstWithHandle(levels, levels[l].handle)].entity
  }

  /** `k` copies of `s`, one after the other. */
  function Repeat<T>(s: seq<T>, k: nat): seq<T>
  {
    if k == 0 then [] else Repeat(s, k - 1) + s
  }

  lemma Distributes(a: nat, b: nat, c: nat)
    ensures a * b + a * c == a * (b + c) == (b + c) * a == b * a + c * a
  {
  }

  lemma {:induction false} RepeatLength<T>(s: seq<T>, k: nat)
    ensures |Repeat(s, k)| == k * |s|
  {
    if k > 0 {
      RepeatLength(s, k - 1);
      Distributes(|s|, k - 1, 1);
    }
  }

  lemma {:induction false} RepeatMembers<T>(s: seq<T>, k: nat)
    ensures forall x :: x in Repeat(s, k) ==> x in s
    ensures k > 0 ==> forall x :: x in s ==> x in Repeat(s, k)
  {
    if k > 0 {
      RepeatMembers(s, k - 1);
    }
  }

  /** The number of occurrences of `x` in `s`. */
  function Count<T(==)>(s: seq<T>, x: T): nat
  {
    if |s| == 0 then 0
    else Count(s[..|s| - 1], x) + (if s[|s| - 1] == x then 1 else 0)
  }

  lemma {:induction false} CountAppend<T>(a: seq<T>, b: seq<T>, x: T)
    ensures Count(a + b, x) == Count(a, x) + Count(b, x)
    decreases |b|
  {
    if |b| == 0 {
      assert a + b == a;
    } else {
      assert (a + b)[..|a + b| - 1] == a + b[..|b| - 1];
      CountAppend(a, b[..|b| - 1], x);
    }
  }

  lemma {:induction false} CountAbsent<T>(s: seq<T>, x: T)
    ensures x !in s <==> Count(s, x) == 0
  {
    if |s| > 0 {
      CountAbsent(s[..|s| - 1], x);
      assert s == s[..|s| - 1] + [s[|s| - 1]];
    }
  }

  lemma {:induction false} RepeatCount<T>(s: seq<T>, k: nat, x: T)
    ensures Count(Repeat(s, k), x) == k * Count(s, x)
  {
    if k > 0 {
      RepeatCount(s, k - 1, x);
      CountAppend(Repeat(s, k - 1), s, x);
      Distributes(Count(s, x), k - 1, 1);
    }
  }
}
