/** The orchestration of one fixed physics step: fetching rigidbodies,
    pause and single-step control, velocity and position integration,
    routing of collider pairs into trigger events, collision events and
    manifolds to solve, and the order of the solver passes.

    Every `queueJobs(n, job).wait()` is a loop over the indices `0..n-1`.
    The narrow phase, contact generation, the contact solver, the rest of
    the pipeline, rotation integration and the inertia tensor update are
    parameters of the model. */
module PhysicsSystem {
  import opened Base

  /** A `math::mat3` by columns. */
  datatype Mat3 = Mat3(c0: Vec3, c1: Vec3, c2: Vec3)

  /** `v * m` with `v` a row vector, as glm computes it. */
  function RowTimes(v: Vec3, m: Mat3): Vec3 {
    Vec3(Dot(v, m.c0), Dot(v, m.c1), Dot(v, m.c2))
  }

  /** A `math::quat`. */
  datatype Quat = Quat(w: real, x: real, y: real, z: real)

  datatype Rigidbody = Rigidbody(
    velocity: Vec3,
    angularVelocity: Vec3,
    forceAccumulator: Vec3,
    torqueAccumulator: Vec3,
    inverseMass: real,
    globalInverseInertiaTensor: Mat3,
    globalCentreOfMass: Vec3)

  /** The per-index arrays `fixedUpdate` works on: `hasRigidBodies`,
      `rigidbodies`, `positions` and `rotations`. */
  datatype Bodies = Bodies(has: seq<bool>, rbs: seq<Rigidbody>, positions: seq<Vec3>, rotations: seq<Quat>)

  predicate WellSized(b: Bodies) {
    |b.rbs| == |b.has| && |b.positions| == |b.has| && |b.rotations| == |b.has|
  }

  /** What the step needs from outside this file: `constants::gravity`, the
      rotation update of the pose integration, `UpdateInertiaTensor`, and
      `runPhysicsPipeline`. */
  datatype Env = Env(
    gravity: Vec3,
    rotate: (Vec3, Quat, real) -> Quat,
    inertia: (Rigidbody, Quat) -> Mat3,
    pipeline: (Bodies, real) -> Bodies)

  // ---------------------------------------------------------------------------
  // Integration
  // ---------------------------------------------------------------------------

  /** One rigidbody's velocity update followed by `resetAccumulators`. */
  function VelocityStep(rb: Rigidbody, dt: real, gravity: Vec3): Rigidbody {
    var acc := Scale(rb.forceAccumulator, rb.inverseMass);
    var angularAcc := RowTimes(rb.torqueAccumulator, rb.globalInverseInertiaTensor);
    rb.(velocity := Add(rb.velocity, Scale(Add(acc, gravity), dt)),
        angularVelocity := Add(rb.angularVelocity, Scale(angularAcc, dt)),
        forceAccumulator := Zero3,
        torqueAccumulator := Zero3)
  }

  /** `integrateRigidbodies(hasRigidBodies, rigidbodies, deltaTime)`. */
  function IntegrateRigidbodies(has: seq<bool>, rbs: seq<Rigidbody>, dt: real, gravity: Vec3): (r: seq<Rigidbody>)
    requires |rbs| == |has|
    ensures |r| == |rbs|
    ensures forall i :: 0 <= i < |rbs| && !has[i] ==> r[i] == rbs[i]
    ensures forall i :: 0 <= i < |rbs| && has[i] ==>
      && r[i].velocity == Add(rbs[i].velocity,
                             Scale(Add(Scale(rbs[i].forceAccumulator, rbs[i].inverseMass), gravity), dt))
      && r[i].angularVelocity
         == Add(rbs[i].angularVelocity, Scale(RowTimes(rbs[i].torqueAccumulator, rbs[i].globalInverseInertiaTensor), dt))
      && r[i].forceAccumulator == Zero3 && r[i].torqueAccumulator == Zero3
      && r[i].inverseMass == rbs[i].inverseMass
      && r[i].globalInverseInertiaTensor == rbs[i].globalInverseInertiaTensor
      && r[i].globalCentreOfMass == rbs[i].globalCentreOfMass
  {
    seq(|rbs|, i requires 0 <= i < |rbs| => if has[i] then VelocityStep(rbs[i], dt, gravity) else rbs[i])
  }

  /** The pose update of one rigidbody entry: position, rotation, centre of
      mass and inertia tensor. */
  function PoseStep(rb: Rigidbody, pos: Vec3, rot: Quat, dt: real, env: Env): (Rigidbody, Vec3, Quat) {
    var pos1 := Add(pos, Scale(rb.velocity, dt));
    var rot1 := env.rotate(rb.angularVelocity, rot, dt);
    var rb1 := rb.(globalCentreOfMass := pos1);
    (rb1.(globalInverseInertiaTensor := env.inertia(rb1, rot1)), pos1, rot1)
  }

  /** `integrateRigidbodyQueryPositionAndRotation`: only rigidbody entries
      move; their centre of mass follows the new position. */
  function IntegratePoses(b: Bodies, dt: real, env: Env): (r: Bodies)
    requires WellSized(b)
    ensures WellSized(r) && r.has == b.has
    ensures forall i :: 0 <= i < |b.has| && !b.has[i] ==>
      r.rbs[i] == b.rbs[i] && r.positions[i] == b.positions[i] && r.rotations[i] == b.rotations[i]
    ensures forall i :: 0 <= i < |b.has| && b.has[i] ==>
      && r.positions[i] == Add(b.positions[i], Scale(b.rbs[i].velocity, dt))
      && r.rotations[i] == env.rotate(b.rbs[i].angularVelocity, b.rotations[i], dt)
      && r.rbs[i].globalCentreOfMass == r.positions[i]
      && r.rbs[i].velocity == b.rbs[i].velocity
      && r.rbs[i].angularVelocity == b.rbs[i].angularVelocity
    ensures forall i :: 0 <= i < |b.has| && b.has[i] ==>
      var moved := b.rbs[i].(globalCentreOfMass := r.positions[i]);
      r.rbs[i] == moved.(globalInverseInertiaTensor := env.inertia(moved, r.rotations[i]))
  {
    var n := |b.has|;
    var step := (i: int) requires 0 <= i < n => PoseStep(b.rbs[i], b.positions[i], b.rotations[i], dt, env);
    Bodies(b.has,
           seq(n, i requires 0 <= i < n => if b.has[i] then step(i).0 else b.rbs[i]),
           seq(n, i requires 0 <= i < n => if b.has[i] then step(i).1 else b.positions[i]),
           seq(n, i requires 0 <= i < n => if b.has[i] then step(i).2 else b.rotations[i]))
  }

  /** What `runPhysicsPipeline` may do: keep the arrays' sizes and which
      entries hold a rigidbody. */
  ghost predicate PipelineKeepsShape(env: Env) {
    forall x: Bodies, t: real :: WellSized(x) ==> WellSized(env.pipeline(x, t)) && env.pipeline(x, t).has == x.has
  }

  /** Integrate, run the pipeline, integrate the pose. */
  function Step(b: Bodies, dt: real, env: Env): (r: Bodies)
    requires WellSized(b) && PipelineKeepsShape(env)
    ensures WellSized(r) && r.has == b.has
  {
    var mid := env.pipeline(b.(rbs := IntegrateRigidbodies(b.has, b.rbs, dt, env.gravity)), dt);
    IntegratePoses(mid, dt, env)
  }

  /** `n` steps in a row. */
  function Steps(b: Bodies, dt: real, env: Env, n: nat): (r: Bodies)
    requires WellSized(b) && PipelineKeepsShape(env)
    ensures WellSized(r) && r.has == b.has
    decreases n
  {
    if n == 0 then b else Steps(Step(b, dt, env), dt, env, n - 1)
  }

  // ---------------------------------------------------------------------------
  // fixedUpdate
  // ---------------------------------------------------------------------------

  /** `PhysicsSystem::IsPaused` and `PhysicsSystem::oneTimeRunActive`. */
  datatype Flags = Flags(isPaused: bool, oneTimeRunActive: bool)

  /** How many steps one `fixedUpdate` runs. */
  function Runs(f: Flags): (n: nat)
    ensures n <= 2
    ensures n == 0 <==> f.isPaused && !f.oneTimeRunActive
    ensures n == 2 <==> !f.isPaused && f.oneTimeRunActive
  {
    (if f.isPaused then 0 else 1) + (if f.oneTimeRunActive then 1 else 0)
  }

  /** The fetch: `hasRigidBodies[i]` says whether entity `i` has a rigidbody,
      and `rigidbodies[i]` holds it, or `blank` when it has none. */
  function Fetch(entities: seq<Option<Rigidbody>>, blank: Rigidbody): (r: (seq<bool>, seq<Rigidbody>))
    ensures |r.0| == |entities| && |r.1| == |entities|
    ensures forall i :: 0 <= i < |entities| ==> (r.0[i] <==> entities[i].Some?)
    ensures forall i :: 0 <= i < |entities| && entities[i].Some? ==> r.1[i] == entities[i].value
  {
    (seq(|entities|, i requires 0 <= i < |entities| => entities[i].Some?),
     seq(|entities|, i requires 0 <= i < |entities| => if entities[i].Some? then entities[i].value else blank))
  }

  /** The write-back: `write_component(rigidbodies[i])` where `hasRigidBodies[i]`. */
  function WriteBack(entities: seq<Option<Rigidbody>>, has: seq<bool>, rbs: seq<Rigidbody>): (r: seq<Option<Rigidbody>>)
    requires |has| == |entities| && |rbs| == |entities|
    ensures |r| == |entities|
    ensures forall i :: 0 <= i < |entities| && !has[i] ==> r[i] == entities[i]
    ensures forall i :: 0 <= i < |entities| && has[i] ==> r[i] == Some(rbs[i])
  {
    seq(|entities|, i requires 0 <= i < |entities| => if has[i] then Some(rbs[i]) else entities[i])
  }

  /** Writing back what was fetched changes nothing. */
  lemma FetchWriteBack(entities: seq<Option<Rigidbody>>, blank: Rigidbody)
    ensures var (has, rbs) := Fetch(entities, blank);
      WriteBack(entities, has, rbs) == entities
  {
    var (has, rbs) := Fetch(entities, blank);
    var w := WriteBack(entities, has, rbs);
    assert forall i :: 0 <= i < |entities| ==> w[i] == entities[i];
  }

  /** `fixedUpdate(deltaTime)`: fetch, run the step once unless paused and
      once more if a single step was requested (clearing the request), then
      write the rigidbodies back. Returns the entities' rigidbodies, the
      positions and rotations, and the flags afterwards. */
  function FixedUpdate(entities: seq<Option<Rigidbody>>, blank: Rigidbody, positions: seq<Vec3>, rotations: seq<Quat>,
                       flags: Flags, dt: real, env: Env): (r: (seq<Option<Rigidbody>>, Bodies, Flags))
    requires |positions| == |entities| && |rotations| == |entities|
    requires PipelineKeepsShape(env)
    ensures WellSized(r.1) && |r.0| == |entities|
    ensures forall i :: 0 <= i < |entities| ==> (r.0[i].Some? <==> entities[i].Some?)
  {
    var (has, rbs) := Fetch(entities, blank);
    var b0 := Bodies(has, rbs, positions, rotations);
    var b1 := if !flags.isPaused then Step(b0, dt, env) else b0;
    var f1 := if flags.oneTimeRunActive then flags.(oneTimeRunActive := false) else flags;
    var b2 := if flags.oneTimeRunActive then Step(b1, dt, env) else b1;
    (WriteBack(entities, b2.has, b2.rbs), b2, f1)
  }

  /** One `fixedUpdate` runs as many steps as the flags ask for, clears the
      single-step request and leaves the pause flag; when it runs none,
      nothing changes. */
  lemma FixedUpdateRuns(entities: seq<Option<Rigidbody>>, blank: Rigidbody, positions: seq<Vec3>, rotations: seq<Quat>,
                        flags: Flags, dt: real, env: Env)
    requires |positions| == |entities| && |rotations| == |entities|
    requires PipelineKeepsShape(env)
    ensures var r := FixedUpdate(entities, blank, positions, rotations, flags, dt, env);
      var (has, rbs) := Fetch(entities, blank);
      && r.1 == Steps(Bodies(has, rbs, positions, rotations), dt, env, Runs(flags))
      && r.2 == Flags(flags.isPaused, false)
      && (Runs(flags) == 0 ==> r.0 == entities && r.1.positions == positions && r.1.rotations == rotations)
  {
    var (has, rbs) := Fetch(entities, blank);
    var b0 := Bodies(has, rbs, positions, rotations);
    if Runs(flags) == 0 {
      FetchWriteBack(entities, blank);
    } else if Runs(flags) == 1 {
      assert Steps(Step(b0, dt, env), dt, env, 0) == Step(b0, dt, env);
    } else {
      var b1 := Step(b0, dt, env);
      assert Steps(b0, dt, env, 2) == Steps(b1, dt, env, 1);
      assert Steps(b1, dt, env, 1) == Steps(Step(b1, dt, env), dt, env, 0);
    }
  }

  // ---------------------------------------------------------------------------
  // Manifold construction
  // ---------------------------------------------------------------------------

  type ColliderId = int
  type EntityId = int

  /** A `math::mat4` world transform, only ever copied here. */
  type Transform = seq<real>

  /** `physicsComponent`: its colliders and whether it is a trigger. */
  datatype PhysicsComp = PhysicsComp(colliders: seq<ColliderId>, isTrigger: bool)

  /** `physics_manifold_precursor`: world transform, physics component (null
      when absent), index into the query, entity. */
  datatype Precursor = Precursor(worldTransform: Transform, physicsComp: Option<PhysicsComp>, id: nat, entity: EntityId)

  /** `physics_manifold`; the rigidbody pointers are indices into
      `rigidbodies`, `None` for null; contacts are opaque. */
  datatype Manifold = Manifold(
    colliderA: ColliderId, colliderB: ColliderId,
    entityA: EntityId, entityB: EntityId,
    rigidbodyA: Option<nat>, rigidbodyB: Option<nat>,
    physicsCompA: Option<PhysicsComp>, physicsCompB: Option<PhysicsComp>,
    transformA: Transform, transformB: Transform,
    isColliding: bool,
    contacts: seq<int>)

  /** The narrow phase: `CheckCollision` decides `isColliding` on the filled
      manifold, `PopulateContactPoints` yields its contacts. */
  datatype NarrowPhase = NarrowPhase(
    check: (ColliderId, ColliderId, Manifold) -> bool,
    populate: (ColliderId, ColliderId, Manifold) -> seq<int>)

  /** `constructManifoldWithCollider`. */
  function ConstructManifoldWithCollider(has: seq<bool>, a: ColliderId, b: ColliderId, pa: Precursor, pb: Precursor,
                                         np: NarrowPhase): (m: Manifold)
    requires pa.id < |has| && pb.id < |has|
    ensures m.rigidbodyA.Some? <==> has[pa.id]
    ensures m.rigidbodyB.Some? <==> has[pb.id]
    ensures m.rigidbodyA.Some? ==> m.rigidbodyA.value == pa.id
    ensures m.rigidbodyB.Some? ==> m.rigidbodyB.value == pb.id
    ensures m.colliderA == a && m.colliderB == b && m.entityA == pa.entity && m.entityB == pb.entity
    ensures m.physicsCompA == pa.physicsComp && m.physicsCompB == pb.physicsComp
    ensures m.transformA == pa.worldTransform && m.transformB == pb.worldTransform
    ensures m.contacts == []
  {
    var filled := Manifold(a, b, pa.entity, pb.entity,
                           if has[pa.id] then Some(pa.id) else None,
                           if has[pb.id] then Some(pb.id) else None,
                           pa.physicsComp, pb.physicsComp, pa.worldTransform, pb.worldTransform, false, []);
    filled.(isColliding := np.check(a, b, filled))
  }

  /** `raiseEvent<trigger_event>` and `raiseEvent<collision_event>`. */
  datatype PhysicsEvent = TriggerEvent(manifold: Manifold) | CollisionEvent(manifold: Manifold)

  /** The manifold for one collider pair, with its contacts when colliding. */
  function Built(has: seq<bool>, a: ColliderId, b: ColliderId, pa: Precursor, pb: Precursor, np: NarrowPhase): Manifold
    requires pa.id < |has| && pb.id < |has|
  {
    var m := ConstructManifoldWithCollider(has, a, b, pa, pb, np);
    if m.isColliding then m.(contacts := np.populate(a, b, m)) else m
  }

  /** The pairs in visit order: A in the outer loop, B in the inner. */
  function Row(a: ColliderId, colsB: seq<ColliderId>): (r: seq<(ColliderId, ColliderId)>)
    ensures |r| == |colsB|
    ensures forall k :: 0 <= k < |colsB| ==> r[k] == (a, colsB[k])
  {
    seq(|colsB|, k requires 0 <= k < |colsB| => (a, colsB[k]))
  }

  function Pairs(colsA: seq<ColliderId>, colsB: seq<ColliderId>): seq<(ColliderId, ColliderId)>
    decreases |colsA|
  {
    if colsA == [] then [] else Pairs(colsA[..|colsA| - 1], colsB) + Row(colsA[|colsA| - 1], colsB)
  }

  /** The events raised for one pair. */
  function PairEvents(m: Manifold, rbInvolved: bool, trigInvolved: bool): seq<PhysicsEvent> {
    if !m.isColliding then []
    else (if trigInvolved then [TriggerEvent(m)] else []) + (if rbInvolved && !trigInvolved then [CollisionEvent(m)] else [])
  }

  /** The manifolds kept for one pair. */
  function PairManifolds(m: Manifold, rbInvolved: bool, trigInvolved: bool): seq<Manifold> {
    if m.isColliding && rbInvolved && !trigInvolved then [m] else []
  }

  /** The events and kept manifolds of a run over `pairs`, in order. */
  function Route(has: seq<bool>, pairs: seq<(ColliderId, ColliderId)>, pa: Precursor, pb: Precursor, np: NarrowPhase,
                 rbInvolved: bool, trigInvolved: bool): (seq<PhysicsEvent>, seq<Manifold>)
    requires pa.id < |has| && pb.id < |has|
    decreases |pairs|
  {
    if pairs == [] then ([], [])
    else
      var (es, ms) := Route(has, pairs[..|pairs| - 1], pa, pb, np, rbInvolved, trigInvolved);
      var p := pairs[|pairs| - 1];
      var m := Built(has, p.0, p.1, pa, pb, np);
      (es + PairEvents(m, rbInvolved, trigInvolved), ms + PairManifolds(m, rbInvolved, trigInvolved))
  }

  /** `constructManifoldsWithPrecursors`: returns the events raised and the
      manifolds appended to `manifoldsToSolve`. */
  method ConstructManifoldsWithPrecursors(has: seq<bool>, pa: Precursor, pb: Precursor, np: NarrowPhase,
                                          rbInvolved: bool, trigInvolved: bool)
    returns (events: seq<PhysicsEvent>, manifolds: seq<Manifold>)
    requires pa.id < |has| && pb.id < |has|
    ensures pa.physicsComp.None? || pb.physicsComp.None? ==> events == [] && manifolds == []
    ensures pa.physicsComp.Some? && pb.physicsComp.Some? ==>
      (events, manifolds)
      == Route(has, Pairs(pa.physicsComp.value.colliders, pb.physicsComp.value.colliders), pa, pb, np,
               rbInvolved, trigInvolved)
  {
    events, manifolds := [], [];
    if pa.physicsComp.None? || pb.physicsComp.None? {
      return;
    }
    var colsA, colsB := pa.physicsComp.value.colliders, pb.physicsComp.value.colliders;
    var i := 0;
    while i < |colsA|
      invariant 0 <= i <= |colsA|
      invariant (events, manifolds) == Route(has, Pairs(colsA[..i], colsB), pa, pb, np, rbInvolved, trigInvolved)
    {
      events, manifolds := VisitRow(has, Pairs(colsA[..i], colsB), colsA[i], colsB, pa, pb, np,
                                    rbInvolved, trigInvolved, events, manifolds);
      PairsSnoc(colsA, colsB, i);
      i := i + 1;
    }
    assert colsA[..i] == colsA;
  }

  /** One more collider of A adds its row of pairs. */
  lemma PairsSnoc(colsA: seq<ColliderId>, colsB: seq<ColliderId>, i: nat)
    requires i < |colsA|
    ensures Pairs(colsA[..i + 1], colsB) == Pairs(colsA[..i], colsB) + Row(colsA[i], colsB)
  {
    assert colsA[..i + 1][..i] == colsA[..i];
  }

  /** The body of the inner loop of `constructManifoldsWithPrecursors` for
      one collider pair. */
  method VisitPair(has: seq<bool>, a: ColliderId, b: ColliderId, pa: Precursor, pb: Precursor, np: NarrowPhase,
                   rbInvolved: bool, trigInvolved: bool, events0: seq<PhysicsEvent>, manifolds0: seq<Manifold>)
    returns (events: seq<PhysicsEvent>, manifolds: seq<Manifold>)
    requires pa.id < |has| && pb.id < |has|
    ensures var m := Built(has, a, b, pa, pb, np);
      && events == events0 + PairEvents(m, rbInvolved, trigInvolved)
      && manifolds == manifolds0 + PairManifolds(m, rbInvolved, trigInvolved)
  {
    events, manifolds := events0, manifolds0;
    var m := ConstructManifoldWithCollider(has, a, b, pa, pb, np);
    if !m.isColliding {
      return;
    }
    m := m.(contacts := np.populate(a, b, m));
    if trigInvolved {
      events := events + [TriggerEvent(m)];
    }
    if rbInvolved && !trigInvolved {
      events := events + [CollisionEvent(m)];
      manifolds := manifolds + [m];
    }
  }

  /** The inner loop of `constructManifoldsWithPrecursors`: collider `a`
      against every collider of B, continuing a run over `prefix`. */
  method VisitRow(has: seq<bool>, prefix: seq<(ColliderId, ColliderId)>, a: ColliderId, colsB: seq<ColliderId>,
                  pa: Precursor, pb: Precursor, np: NarrowPhase, rbInvolved: bool, trigInvolved: bool,
                  events0: seq<PhysicsEvent>, manifolds0: seq<Manifold>)
    returns (events: seq<PhysicsEvent>, manifolds: seq<Manifold>)
    requires pa.id < |has| && pb.id < |has|
    requires (events0, manifolds0) == Route(has, prefix, pa, pb, np, rbInvolved, trigInvolved)
    ensures (events, manifolds) == Route(has, prefix + Row(a, colsB), pa, pb, np, rbInvolved, trigInvolved)
  {
    events, manifolds := events0, manifolds0;
    var j := 0;
    assert prefix + Row(a, colsB[..0]) == prefix;
    while j < |colsB|
      invariant 0 <= j <= |colsB|
      invariant (events, manifolds) == Route(has, prefix + Row(a, colsB[..j]), pa, pb, np, rbInvolved, trigInvolved)
    {
      events, manifolds := VisitPair(has, a, colsB[j], pa, pb, np, rbInvolved, trigInvolved, events, manifolds);
      RouteSnoc(has, prefix + Row(a, colsB[..j]), (a, colsB[j]), pa, pb, np, rbInvolved, trigInvolved);
      RowSnoc(prefix, a, colsB, j);
      j := j + 1;
    }
    assert colsB[..j] == colsB;
  }

  lemma RowSnoc(prefix: seq<(ColliderId, ColliderId)>, a: ColliderId, colsB: seq<ColliderId>, j: nat)
    requires j < |colsB|
    ensures prefix + Row(a, colsB[..j + 1]) == (prefix + Row(a, colsB[..j])) + [(a, colsB[j])]
  {
    assert Row(a, colsB[..j + 1]) == Row(a, colsB[..j]) + [(a, colsB[j])];
  }

  lemma RouteSnoc(has: seq<bool>, pairs: seq<(ColliderId, ColliderId)>, p: (ColliderId, ColliderId),
                  pa: Precursor, pb: Precursor, np: NarrowPhase, rbInvolved: bool, trigInvolved: bool)
    requires pa.id < |has| && pb.id < |has|
    ensures var (es, ms) := Route(has, pairs, pa, pb, np, rbInvolved, trigInvolved);
      var m := Built(has, p.0, p.1, pa, pb, np);
      Route(has, pairs + [p], pa, pb, np, rbInvolved, trigInvolved)
      == (es + PairEvents(m, rbInvolved, trigInvolved), ms + PairManifolds(m, rbInvolved, trigInvolved))
  {
    assert (pairs + [p])[..|pairs + [p]| - 1] == pairs;
  }

  /** The pairs of a run whose manifold collides, in visit order. */
  function Colliding(has: seq<bool>, pairs: seq<(ColliderId, ColliderId)>, pa: Precursor, pb: Precursor,
                     np: NarrowPhase): seq<Manifold>
    requires pa.id < |has| && pb.id < |has|
    decreases |pairs|
  {
    if pairs == [] then []
    else
      var p := pairs[|pairs| - 1];
      var m := Built(has, p.0, p.1, pa, pb, np);
      Colliding(has, pairs[..|pairs| - 1], pa, pb, np) + (if m.isColliding then [m] else [])
  }

  function Triggers(ms: seq<Manifold>): (r: seq<PhysicsEvent>)
    ensures |r| == |ms| && forall i :: 0 <= i < |ms| ==> r[i] == TriggerEvent(ms[i])
  {
    seq(|ms|, i requires 0 <= i < |ms| => TriggerEvent(ms[i]))
  }

  function Collisions(ms: seq<Manifold>): (r: seq<PhysicsEvent>)
    ensures |r| == |ms| && forall i :: 0 <= i < |ms| ==> r[i] == CollisionEvent(ms[i])
  {
    seq(|ms|, i requires 0 <= i < |ms| => CollisionEvent(ms[i]))
  }

  /** Routing of the colliding pairs: with a trigger involved every
      colliding pair raises a trigger event and nothing is kept; otherwise,
      with a rigidbody involved, every colliding pair raises a collision
      event and its manifold is kept, in visit order; with neither, nothing
      happens. Non-colliding pairs never show up. */
  lemma {:induction false} RouteSpec(has: seq<bool>, pairs: seq<(ColliderId, ColliderId)>, pa: Precursor, pb: Precursor,
                                     np: NarrowPhase, rbInvolved: bool, trigInvolved: bool)
    requires pa.id < |has| && pb.id < |has|
    ensures var (es, ms) := Route(has, pairs, pa, pb, np, rbInvolved, trigInvolved);
      var c := Colliding(has, pairs, pa, pb, np);
      && (trigInvolved ==> es == Triggers(c) && ms == [])
      && (!trigInvolved && rbInvolved ==> es == Collisions(c) && ms == c)
      && (!trigInvolved && !rbInvolved ==> es == [] && ms == [])
    decreases |pairs|
  {
    if pairs != [] {
      var init := pairs[..|pairs| - 1];
      RouteSpec(has, init, pa, pb, np, rbInvolved, trigInvolved);
      var p := pairs[|pairs| - 1];
      var m := Built(has, p.0, p.1, pa, pb, np);
      var c0 := Colliding(has, init, pa, pb, np);
      var tail := if m.isColliding then [m] else [];
      assert Triggers(c0 + tail) == Triggers(c0) + Triggers(tail);
      assert Collisions(c0 + tail) == Collisions(c0) + Collisions(tail);
    }
  }

  /** Every manifold in `c` collides, and its rigidbody pointers are set
      exactly for the precursors that have a rigidbody. */
  predicate CollidingWithBodies(c: seq<Manifold>, has: seq<bool>, pa: Precursor, pb: Precursor)
    requires pa.id < |has| && pb.id < |has|
  {
    forall i :: 0 <= i < |c| ==>
      c[i].isColliding && (c[i].rigidbodyA.Some? <==> has[pa.id]) && (c[i].rigidbodyB.Some? <==> has[pb.id])
  }

  /** Every kept manifold collides and carries the rigidbody pointers of its
      precursors. */
  lemma {:induction false} CollidingManifolds(has: seq<bool>, pairs: seq<(ColliderId, ColliderId)>, pa: Precursor,
                                              pb: Precursor, np: NarrowPhase)
    requires pa.id < |has| && pb.id < |has|
    ensures CollidingWithBodies(Colliding(has, pairs, pa, pb, np), has, pa, pb)
    decreases |pairs|
  {
    if pairs != [] {
      var init := pairs[..|pairs| - 1];
      CollidingManifolds(has, init, pa, pb, np);
      var p := pairs[|pairs| - 1];
      var m := Built(has, p.0, p.1, pa, pb, np);
      var c0 := Colliding(has, init, pa, pb, np);
      var c := Colliding(has, pairs, pa, pb, np);
      assert c == c0 + (if m.isColliding then [m] else []);
      assert CollidingWithBodies(if m.isColliding then [m] else [], has, pa, pb);
      forall i | 0 <= i < |c|
        ensures c[i].isColliding && (c[i].rigidbodyA.Some? <==> has[pa.id]) && (c[i].rigidbodyB.Some? <==> has[pb.id])
      {
        if i < |c0| {
          assert c[i] == c0[i];
        } else {
          assert c[i] == m;
        }
      }
    }
  }

  // ---------------------------------------------------------------------------
  // Solver passes
  // ---------------------------------------------------------------------------

  /** One call on a contact: `(manifold index, contact index)`. */
  datatype Visit = Visit(manifold: nat, contact: nat)

  /** The visits of the `n` contacts of manifold `m`, in contact order. */
  function ContactsOf(m: nat, n: nat): (r: seq<Visit>)
    ensures |r| == n
    ensures forall c :: 0 <= c < n ==> r[c] == Visit(m, c)
  {
    seq(n, c requires 0 <= c < n => Visit(m, c))
  }

  /** The contacts a pass visits among manifolds `0..k-1`, in index order. */
  function ValidVisits(counts: seq<nat>, validity: seq<bool>, k: nat): (r: seq<Visit>)
    requires k <= |counts| && k <= |validity|
    decreases k
  {
    if k == 0 then []
    else ValidVisits(counts, validity, k - 1) + (if validity[k - 1] then ContactsOf(k - 1, counts[k - 1]) else [])
  }

  /** One solver pass (`initializeManifolds`, `resolveContactConstraint` or
      `resolveFrictionConstraint`; they share this loop): `counts[i]` is the
      number of contacts of manifold `i`. `failed` is the `out_of_range` thrown
      by `manifoldValidity.at(i)` once `i` passes its end. */
  method SolverPass(counts: seq<nat>, validity: seq<bool>) returns (visits: seq<Visit>, failed: bool)
    ensures failed <==> |validity| < |counts|
    ensures visits == ValidVisits(counts, validity, if |validity| < |counts| then |validity| else |counts|)
  {
    visits := [];
    var i := 0;
    while i < |counts|
      invariant 0 <= i <= |counts| && i <= |validity|
      invariant visits == ValidVisits(counts, validity, i)
    {
      if i >= |validity| {
        return visits, true;
      }
      if validity[i] {
        var c := 0;
        while c < counts[i]
          invariant 0 <= c <= counts[i]
          invariant visits == ValidVisits(counts, validity, i) + ContactsOf(i, c)
        {
          assert ContactsOf(i, c + 1) == ContactsOf(i, c) + [Visit(i, c)];
          visits := visits + [Visit(i, c)];
          c := c + 1;
        }
      }
      i := i + 1;
    }
    failed := false;
  }

  /** Lexicographic order on visits. */
  predicate Before(a: Visit, b: Visit) {
    a.manifold < b.manifold || (a.manifold == b.manifold && a.contact < b.contact)
  }

  /** The contact visits of one manifold are exactly its contacts. */
  lemma ContactsOfMembers(m: nat, n: nat)
    ensures forall x :: x in ContactsOf(m, n) <==> x.manifold == m && x.contact < n
  {
    forall x: Visit | x.manifold == m && x.contact < n ensures x in ContactsOf(m, n) {
      assert ContactsOf(m, n)[x.contact] == x;
    }
  }

  /** A pass over manifolds `0..k-1` visits exactly the contacts of the
      valid ones. */
  lemma {:induction false} ValidVisitsMembers(counts: seq<nat>, validity: seq<bool>, k: nat)
    requires k <= |counts| && k <= |validity|
    ensures forall x :: (x in ValidVisits(counts, validity, k)
                         <==> x.manifold < k && validity[x.manifold] && x.contact < counts[x.manifold])
    decreases k
  {
    if k > 0 {
      ValidVisitsMembers(counts, validity, k - 1);
      ContactsOfMembers(k - 1, counts[k - 1]);
    }
  }

  /** Strictly increasing in (manifold, contact) order. */
  predicate Increasing(v: seq<Visit>) {
    forall i, j :: 0 <= i < j < |v| ==> Before(v[i], v[j])
  }

  /** A pass visits in strictly increasing (manifold, contact) order. */
  lemma {:induction false} ValidVisitsOrdered(counts: seq<nat>, validity: seq<bool>, k: nat)
    requires k <= |counts| && k <= |validity|
    ensures Increasing(ValidVisits(counts, validity, k))
    decreases k
  {
    if k > 0 {
      ValidVisitsOrdered(counts, validity, k - 1);
      ValidVisitsMembers(counts, validity, k - 1);
      var prev := ValidVisits(counts, validity, k - 1);
      var add := if validity[k - 1] then ContactsOf(k - 1, counts[k - 1]) else [];
      var v := prev + add;
      forall i, j | 0 <= i < j < |v| ensures Before(v[i], v[j]) {
        if j < |prev| {
          assert v[i] == prev[i] && v[j] == prev[j];
          assert Increasing(prev);
        } else if i < |prev| {
          assert validity[k - 1] && v[j] == add[j - |prev|] == Visit(k - 1, j - |prev|);
          assert v[i] == prev[i] && v[i] in prev;
          assert v[i].manifold < k - 1;
        } else {
          assert validity[k - 1];
          assert v[i] == add[i - |prev|] == Visit(k - 1, i - |prev|);
          assert v[j] == add[j - |prev|] == Visit(k - 1, j - |prev|);
        }
      }
    }
  }

  /** A pass visits exactly the contacts of the valid manifolds, each once,
      in strictly increasing index order. */
  lemma ValidVisitsSpec(counts: seq<nat>, validity: seq<bool>, k: nat)
    requires k <= |counts| && k <= |validity|
    ensures var v := ValidVisits(counts, validity, k);
      && Increasing(v)
      && (forall x :: x in v <==> x.manifold < k && validity[x.manifold] && x.contact < counts[x.manifold])
  {
    ValidVisitsOrdered(counts, validity, k);
    ValidVisitsMembers(counts, validity, k);
  }
}
