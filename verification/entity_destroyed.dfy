/** `EntityDestroyedProcessor`: the client's handling of an inbound EntityDestroyed packet.

  The processor forgets the entity, then looks up the local object. A missing
  object is only marked for deletion. A found object is torn down by exactly
  one category-specific cleanup, chosen in the priority Vehicle, SubRoot,
  Pickupable, anything else, inside a scope that suppresses outbound
  EntityDestroyed packets. A game call that throws cuts the cleanup short; the
  scope is released all the same and the exception leaves the processor. What
  the processor does is returned as an ordered trace of actions next to the new
  world state and whether it threw.
 */
module EntityDestroyedProcessor {
  import opened Entities

  /** The sentinel damage type that lets the subroot's damage handler run unpatched. */
  const DAMAGE_TYPE_RUN_ORIGINAL: int := 100

  /** A RemotePlayerIdentifier under a vehicle: the remote player it names, and whether
      its game object is active. */
  datatype RemotePlayerIdentifier = RemotePlayerIdentifier(player: nat, active: bool)

  /** The Vehicle component: whether the local player pilots it, the identifiers found under
      it, whether it has a destruction effect, and whether its game object is still alive. */
  datatype Vehicle = Vehicle(pilotedLocally: bool, identifiers: seq<RemotePlayerIdentifier>,
                             hasDestructionEffect: bool, alive: bool)

  /** The SubRoot component: its live mixin's health and its `oldHPPercent`. */
  datatype SubRoot = SubRoot(health: real, oldHPPercent: real)

  /** The components of a local object that decide its cleanup. */
  datatype Target = Target(vehicle: Option<Vehicle>, subRoot: Option<SubRoot>, pickupable: bool)

  /** The client state the processor reads and writes: the ids tracked by `Entities`, the ids
      marked for deletion, and the local objects by id. */
  datatype World = World(entities: set<NitroxId>, pendingDeletion: set<NitroxId>, objects: map<NitroxId, Target>)

  /** What the game does during a teardown: its answer to `Player.ToNormalMode(true)`, and the
      position in the cleanup's action list of the call that throws, if one does. */
  datatype Host = Host(gracefulEjectSucceeds: bool, failsAt: Option<nat>)

  datatype Action =
    | RemoveEntity(id: NitroxId)          // Entities.RemoveEntity
    | MarkForDeletion(id: NitroxId)       // Entities.MarkForDeletion
    | Suppress                            // PacketSuppressor<EntityDestroyed> scope opened
    | Release                             // ... and disposed
    | EndPilotMode                        // Vehicle.OnPilotModeEnd
    | ToNormalMode(graceful: bool)        // Player.ToNormalMode
    | UnparentPlayer                      // player transform parent := null
    | ResetRemotePlayer(player: nat)      // RemotePlayer.ResetStates
    | SpawnDestructionEffect              // Instantiate(destructionEffect) at the vehicle
    | Destroy                             // Object.Destroy of the object
    | SetOldHPPercent(value: real)
    | SetHealth(value: real)
    | NotifyDamageReceivers(damageType: int)
    | Kill                                // LiveMixin.Kill
    | OnTakeDamage(damageType: int)       // SubRoot.OnTakeDamage
    | PickupableOnDestroy                 // Pickupable.OnDestroy, called directly
    | DestroyObject                       // Entities.DestroyObject

  datatype Category = VehicleCleanup | SubRootCleanup | PickupableCleanup | DefaultCleanup

  /** Which cleanup an object gets: the first component present in the order
      Vehicle, SubRoot, Pickupable. */
  function CategoryOf(t: Target): (c: Category)
    ensures c == VehicleCleanup <==> t.vehicle.Some?
    ensures c == SubRootCleanup <==> t.vehicle.None? && t.subRoot.Some?
    ensures c == PickupableCleanup <==> t.vehicle.None? && t.subRoot.None? && t.pickupable
    ensures c == DefaultCleanup <==> t.vehicle.None? && t.subRoot.None? && !t.pickupable
  {
    if t.vehicle.Some? then VehicleCleanup
    else if t.subRoot.Some? then SubRootCleanup
    else if t.pickupable then PickupableCleanup
    else DefaultCleanup
  }

  /** The actions each cleanup may perform. A destroy of the object belongs to both the
      vehicle and the pickupable cleanup. */
  predicate BelongsTo(a: Action, c: Category) {
    match c
    case VehicleCleanup =>
      a.EndPilotMode? || a.ToNormalMode? || a.UnparentPlayer? || a.ResetRemotePlayer?
      || a.SpawnDestructionEffect? || a.Destroy?
    case SubRootCleanup =>
      a.SetOldHPPercent? || a.SetHealth? || a.NotifyDamageReceivers? || a.Kill? || a.OnTakeDamage?
    case PickupableCleanup => a.PickupableOnDestroy? || a.Destroy?
    case DefaultCleanup => a.DestroyObject?
  }

  /** One reset per identifier, in order, inactive ones included. */
  function Resets(ids: seq<RemotePlayerIdentifier>): (acts: seq<Action>)
    ensures |acts| == |ids|
    ensures forall i | 0 <= i < |ids| :: acts[i] == ResetRemotePlayer(ids[i].player)
  {
    if |ids| == 0 then [] else [ResetRemotePlayer(ids[0].player)] + Resets(ids[1..])
  }

  /** The ejection of a local pilot: end pilot mode and try a graceful exit; only when that
      fails force the exit and unparent the player. */
  function Eject(v: Vehicle, host: Host): seq<Action> {
    if !v.pilotedLocally then []
    else [EndPilotMode, ToNormalMode(true)] + (if host.gracefulEjectSucceeds then [] else [ToNormalMode(false), UnparentPlayer])
  }

  /** The end of a vehicle's teardown, skipped when its game object is already gone: the
      destruction effect, if it has one, then the destroy. */
  function Wreck(v: Vehicle): seq<Action> {
    if !v.alive then []
    else (if v.hasDestructionEffect then [SpawnDestructionEffect] else []) + [Destroy]
  }

  /** `DestroyVehicle`. */
  function DestroyVehicle(v: Vehicle, host: Host): (acts: seq<Action>)
  {
    Eject(v, host) + Resets(v.identifiers) + Wreck(v)
  }

  /** `DestroySubroot`: a subroot still alive is first brought to zero health, with
      `oldHPPercent` zeroed before it, and killed; the damage handler is then called once
      with the sentinel damage type in every case. */
  function DestroySubroot(s: SubRoot): (acts: seq<Action>)
  {
    var zeroed := if s.health > 0.0
                  then [SetOldHPPercent(0.0), SetHealth(0.0), NotifyDamageReceivers(DAMAGE_TYPE_RUN_ORIGINAL), Kill]
                  else [];
    zeroed + [OnTakeDamage(DAMAGE_TYPE_RUN_ORIGINAL)]
  }

  /** `DestroyPickupable`: `OnDestroy` runs now, before the deferred destroy is requested. */
  function DestroyPickupable(): (acts: seq<Action>)
  {
    [PickupableOnDestroy, Destroy]
  }

  /** The cleanup chosen for the object. */
  function Cleanup(t: Target, host: Host): seq<Action> {
    match CategoryOf(t)
    case VehicleCleanup => DestroyVehicle(t.vehicle.value, host)
    case SubRootCleanup => DestroySubroot(t.subRoot.value)
    case PickupableCleanup => DestroyPickupable()
    case DefaultCleanup => [DestroyObject]
  }

  /** Every action of `acts` belongs to the cleanup `c`. */
  ghost predicate Within(acts: seq<Action>, c: Category) {
    forall k | 0 <= k < |acts| :: BelongsTo(acts[k], c)
  }

  /** A cleanup performs only its own category's actions, and never touches the suppression scope. */
  lemma CleanupWithin(t: Target, host: Host)
    ensures Within(Cleanup(t, host), CategoryOf(t))
    ensures Suppress !in Cleanup(t, host) && Release !in Cleanup(t, host)
  {
    var acts := Cleanup(t, host);
    if CategoryOf(t) == VehicleCleanup {
      var v := t.vehicle.value;
      var eject := Eject(v, host);
      var resets := Resets(v.identifiers);
      var wreck := Wreck(v);
      assert Within(eject, VehicleCleanup);
      assert Within(resets, VehicleCleanup);
      assert Within(wreck, VehicleCleanup);
      assert acts == eject + resets + wreck;
      WithinConcat(eject, resets, VehicleCleanup);
      WithinConcat(eject + resets, wreck, VehicleCleanup);
    }
    assert forall k | 0 <= k < |acts| :: acts[k] != Suppress && acts[k] != Release by {
      forall k | 0 <= k < |acts| ensures acts[k] != Suppress && acts[k] != Release {
        assert BelongsTo(acts[k], CategoryOf(t));
      }
    }
  }

  lemma WithinConcat(xs: seq<Action>, ys: seq<Action>, c: Category)
    requires Within(xs, c) && Within(ys, c)
    ensures Within(xs + ys, c)
  {
    forall k | 0 <= k < |xs + ys| ensures BelongsTo((xs + ys)[k], c) {
      if k < |xs| {
        assert (xs + ys)[k] == xs[k];
      } else {
        assert (xs + ys)[k] == ys[k - |xs|];
      }
    }
  }

  /** How many of a cleanup's `n` calls complete: all of them, unless the host throws at an
      earlier position, in which case exactly the calls before it. */
  function Completed(n: nat, host: Host): (k: nat)
    ensures k <= n
    ensures k < n <==> host.failsAt.Some? && host.failsAt.value < n
  {
    if host.failsAt.Some? && host.failsAt.value < n then host.failsAt.value else n
  }

  /** The object's state once the first `done` calls of its cleanup have run: only a subroot
      that was alive changes, first its `oldHPPercent` to zero, then its health to zero. */
  function Cleaned(t: Target, done: nat): Target {
    if CategoryOf(t) == SubRootCleanup && t.subRoot.value.health > 0.0 && done >= 1 then
      var s := t.subRoot.value;
      t.(subRoot := Some(SubRoot(if done >= 2 then 0.0 else s.health, 0.0)))
    else t
  }

  /** The new world, the actions in order, and whether an exception left the processor. */
  datatype Processed = Processed(world: World, trace: seq<Action>, threw: bool)

  /** `EntityDestroyedProcessor.Process`. An exception thrown by the cleanup stops it at the
      throwing call; the `using` scope is still released, and the exception then leaves the
      processor. */
  function Process(w: World, id: NitroxId, host: Host): (p: Processed)
    ensures |p.trace| >= 2 && p.trace[0] == RemoveEntity(id)
    ensures p.world.entities == w.entities - {id}
    ensures id !in w.objects ==>
              && !p.threw
              && p.trace == [RemoveEntity(id), MarkForDeletion(id)]
              && p.world.pendingDeletion == w.pendingDeletion + {id}
              && p.world.objects == w.objects
    ensures id in w.objects ==>
              && p.trace[1] == Suppress && p.trace[|p.trace| - 1] == Release
              && (p.threw <==> host.failsAt.Some? && host.failsAt.value < |Cleanup(w.objects[id], host)|)
              && p.world.pendingDeletion == w.pendingDeletion
              && p.world.objects.Keys == w.objects.Keys
              && (forall other | other in w.objects && other != id :: p.world.objects[other] == w.objects[other])
              && (forall k | 2 <= k < |p.trace| - 1 :: BelongsTo(p.trace[k], CategoryOf(w.objects[id])))
  {
    var forgotten := w.(entities := w.entities - {id});
    if id !in w.objects then
      Processed(forgotten.(pendingDeletion := w.pendingDeletion + {id}), [RemoveEntity(id), MarkForDeletion(id)], false)
    else
      var t := w.objects[id];
      var acts := Cleanup(t, host);
      var n := Completed(|acts|, host);
      CleanupWithin(t, host);
      var trace := [RemoveEntity(id), Suppress] + acts[..n] + [Release];
      assert forall k | 2 <= k < |trace| - 1 :: trace[k] == acts[k - 2];
      Processed(forgotten.(objects := w.objects[id := Cleaned(t, n)]), trace, n < |acts|)
  }

  /** The number of times `a` occurs in `acts`. */
  function Count(acts: seq<Action>, a: Action): (n: nat)
    ensures n <= |acts|
    ensures n == 0 <==> a !in acts
  {
    if |acts| == 0 then 0 else (if acts[0] == a then 1 else 0) + Count(acts[1..], a)
  }

  lemma {:induction false} CountConcat(xs: seq<Action>, ys: seq<Action>, a: Action)
    ensures Count(xs + ys, a) == Count(xs, a) + Count(ys, a)
    decreases |xs|
  {
    if |xs| == 0 {
      assert xs + ys == ys;
    } else {
      assert (xs + ys)[1..] == xs[1..] + ys;
      CountConcat(xs[1..], ys, a);
    }
  }

  /** The suppression scope is opened and released exactly once around a found object's
      cleanup, whether the cleanup completes or throws, and nothing else in the trace touches it. */
  lemma SuppressedOnce(w: World, id: NitroxId, host: Host)
    requires id in w.objects
    ensures var p := Process(w, id, host);
            Count(p.trace, Suppress) == 1 && Count(p.trace, Release) == 1
  {
    var t := w.objects[id];
    var acts := Cleanup(t, host);
    var done := acts[..Completed(|acts|, host)];
    var head := [RemoveEntity(id), Suppress];
    FoundTrace(w, id, host);
    CleanupWithin(t, host);
    NotInPrefix(acts, Suppress, |done|);
    NotInPrefix(acts, Release, |done|);
    assert Count(head, Suppress) == 1 && Count(head, Release) == 0;
    assert Count([Release], Suppress) == 0 && Count([Release], Release) == 1;
    CountConcat(head + done, [Release], Suppress);
    CountConcat(head, done, Suppress);
    CountConcat(head + done, [Release], Release);
    CountConcat(head, done, Release);
  }

  /** What a trace does not contain, none of its prefixes contains. */
  lemma NotInPrefix(acts: seq<Action>, a: Action, n: nat)
    requires n <= |acts| && a !in acts
    ensures a !in acts[..n]
  {
    assert forall k | 0 <= k < n :: acts[..n][k] == acts[k];
  }

  /** A found object's trace is the completed part of its cleanup between the opening and the
      release of the suppression scope. */
  lemma FoundTrace(w: World, id: NitroxId, host: Host)
    requires id in w.objects
    ensures var acts := Cleanup(w.objects[id], host);
            Process(w, id, host).trace == [RemoveEntity(id), Suppress] + acts[..Completed(|acts|, host)] + [Release]
  {
  }

  /** When the cleanup's call at position `k` throws, the calls before it have run, the
      suppression scope is still released, and the exception leaves the processor. */
  lemma InterruptedTrace(w: World, id: NitroxId, host: Host)
    requires id in w.objects
    requires host.failsAt.Some? && host.failsAt.value < |Cleanup(w.objects[id], host)|
    ensures var p := Process(w, id, host);
            && p.threw
            && p.trace == [RemoveEntity(id), Suppress] + Cleanup(w.objects[id], host)[..host.failsAt.value] + [Release]
  {
  }

  /** Only the subroot cleanup calls the damage handler, once, with the sentinel, as its last
      call: so its first `n` calls contain that call exactly when they are all of them. */
  lemma CleanupDamagedOnce(t: Target, host: Host, damageType: int, n: nat)
    requires n <= |Cleanup(t, host)|
    ensures Count(Cleanup(t, host)[..n], OnTakeDamage(damageType)) ==
              if CategoryOf(t) == SubRootCleanup && damageType == DAMAGE_TYPE_RUN_ORIGINAL && n == |Cleanup(t, host)|
              then 1 else 0
  {
    var acts := Cleanup(t, host);
    if CategoryOf(t) == SubRootCleanup {
      var s := t.subRoot.value;
      var zeroed := if s.health > 0.0
                    then [SetOldHPPercent(0.0), SetHealth(0.0), NotifyDamageReceivers(DAMAGE_TYPE_RUN_ORIGINAL), Kill]
                    else [];
      assert acts == zeroed + [OnTakeDamage(DAMAGE_TYPE_RUN_ORIGINAL)];
      assert OnTakeDamage(damageType) !in zeroed;
      if n == |acts| {
        assert acts[..n] == acts;
        CountConcat(zeroed, [OnTakeDamage(DAMAGE_TYPE_RUN_ORIGINAL)], OnTakeDamage(damageType));
      } else {
        assert acts[..n] == zeroed[..n];
        NotInPrefix(zeroed, OnTakeDamage(damageType), n);
      }
    } else {
      CleanupWithin(t, host);
      forall k | 0 <= k < |acts|
        ensures acts[k] != OnTakeDamage(damageType)
      {
        assert BelongsTo(acts[k], CategoryOf(t));
      }
      NotInPrefix(acts, OnTakeDamage(damageType), n);
    }
  }

  /** A subroot's damage handler is called exactly once, with the sentinel damage type,
      whatever its health, unless an earlier call of its cleanup throws; no other object
      gets that call, and a missing one gets none. */
  lemma SubRootDamagedOnce(w: World, id: NitroxId, host: Host, damageType: int)
    ensures var p := Process(w, id, host);
            Count(p.trace, OnTakeDamage(damageType)) ==
              if id in w.objects && CategoryOf(w.objects[id]) == SubRootCleanup
                 && damageType == DAMAGE_TYPE_RUN_ORIGINAL && !p.threw
              then 1 else 0
  {
    if id in w.objects {
      var acts := Cleanup(w.objects[id], host);
      var n := Completed(|acts|, host);
      var done := acts[..n];
      var head := [RemoveEntity(id), Suppress];
      FoundTrace(w, id, host);
      CountConcat(head + done, [Release], OnTakeDamage(damageType));
      CountConcat(head, done, OnTakeDamage(damageType));
      CleanupDamagedOnce(w.objects[id], host, damageType, n);
    }
  }

  /** A subroot that was alive is zeroed, notified and killed, in that order, before the
      damage handler runs; afterwards its health is not positive and its `oldHPPercent`
      lies in [0, 0.25), which is what makes the damage handler take the destroy path. */
  lemma SubRootTrace(w: World, id: NitroxId, host: Host)
    requires id in w.objects && CategoryOf(w.objects[id]) == SubRootCleanup
    ensures var p := Process(w, id, host);
            var before := w.objects[id].subRoot.value;
            var after := p.world.objects[id].subRoot;
            && after.Some?
            && (!p.threw && before.health > 0.0 ==>
                  && p.trace == [RemoveEntity(id), Suppress, SetOldHPPercent(0.0), SetHealth(0.0),
                                 NotifyDamageReceivers(DAMAGE_TYPE_RUN_ORIGINAL), Kill,
                                 OnTakeDamage(DAMAGE_TYPE_RUN_ORIGINAL), Release]
                  && after.value.health <= 0.0
                  && 0.0 <= after.value.oldHPPercent < 0.25)
            && (!p.threw && before.health <= 0.0 ==>
                  && p.trace == [RemoveEntity(id), Suppress, OnTakeDamage(DAMAGE_TYPE_RUN_ORIGINAL), Release]
                  && after.value == before)
  {
  }

  /** `DestroyVehicle`, ejection: pilot mode is ended and a graceful exit tried first; the
      exit is forced and the player unparented exactly when the graceful exit fails. */
  lemma DestroyVehicleEjects(v: Vehicle, host: Host)
    ensures var acts := DestroyVehicle(v, host);
            && (v.pilotedLocally ==> |acts| >= 2 && acts[0] == EndPilotMode && acts[1] == ToNormalMode(true))
            && (ToNormalMode(false) in acts <==> v.pilotedLocally && !host.gracefulEjectSucceeds)
            && (UnparentPlayer in acts <==> v.pilotedLocally && !host.gracefulEjectSucceeds)
  {
    var eject := Eject(v, host);
    var rest := Resets(v.identifiers) + Wreck(v);
    assert DestroyVehicle(v, host) == eject + rest;
    AfterEjectQuiet(v);
    assert ToNormalMode(false) in eject <==> v.pilotedLocally && !host.gracefulEjectSucceeds;
    assert UnparentPlayer in eject <==> v.pilotedLocally && !host.gracefulEjectSucceeds;
  }

  /** After the ejection nothing moves the local player any more. */
  lemma AfterEjectQuiet(v: Vehicle)
    ensures ToNormalMode(false) !in Resets(v.identifiers) + Wreck(v)
    ensures UnparentPlayer !in Resets(v.identifiers) + Wreck(v)
  {
    var rest := Resets(v.identifiers) + Wreck(v);
    forall k | 0 <= k < |rest|
      ensures rest[k] != ToNormalMode(false) && rest[k] != UnparentPlayer
    {
      if k < |Resets(v.identifiers)| {
        assert rest[k] == Resets(v.identifiers)[k];
      } else {
        assert rest[k] == Wreck(v)[k - |Resets(v.identifiers)|];
      }
    }
  }

  /** `DestroyVehicle`, resets: right after the ejection every remote player identifier under
      the vehicle is reset, in order, inactive ones included. */
  lemma DestroyVehicleResets(v: Vehicle, host: Host)
    ensures var acts := DestroyVehicle(v, host);
            var ejected := if !v.pilotedLocally then 0 else if host.gracefulEjectSucceeds then 2 else 4;
            && |acts| >= ejected + |v.identifiers|
            && forall i | 0 <= i < |v.identifiers| :: acts[ejected + i] == ResetRemotePlayer(v.identifiers[i].player)
  {
    var eject := Eject(v, host);
    var resets := Resets(v.identifiers);
    assert |eject| == if !v.pilotedLocally then 0 else if host.gracefulEjectSucceeds then 2 else 4;
    MiddleAt(eject, resets, Wreck(v));
  }

  /** The middle part of a three-part trace sits right after the first part. */
  lemma MiddleAt(xs: seq<Action>, ys: seq<Action>, zs: seq<Action>)
    ensures |xs + ys + zs| >= |xs| + |ys|
    ensures forall i | 0 <= i < |ys| :: (xs + ys + zs)[|xs| + i] == ys[i]
  {
  }

  /** `DestroyVehicle`, end: a vehicle whose object is alive is destroyed as the last action,
      right after its destruction effect when it has one; a vehicle already gone is neither. */
  lemma DestroyVehicleWrecks(v: Vehicle, host: Host)
    ensures var acts := DestroyVehicle(v, host);
            && (Destroy in acts <==> v.alive)
            && (v.alive ==> acts[|acts| - 1] == Destroy)
            && (SpawnDestructionEffect in acts <==> v.alive && v.hasDestructionEffect)
            && (v.alive && v.hasDestructionEffect ==> acts[|acts| - 2] == SpawnDestructionEffect)
  {
    var front := Eject(v, host) + Resets(v.identifiers);
    var wreck := Wreck(v);
    assert DestroyVehicle(v, host) == front + wreck;
    assert forall k | 0 <= k < |front| :: front[k].EndPilotMode? || front[k].ToNormalMode? || front[k].UnparentPlayer? || front[k].ResetRemotePlayer?;
  }

  /** A pickupable's `OnDestroy` runs right before its destroy is requested, and nothing else happens. */
  lemma PickupableTrace(w: World, id: NitroxId, host: Host)
    requires id in w.objects && CategoryOf(w.objects[id]) == PickupableCleanup
    ensures var p := Process(w, id, host);
            !p.threw ==> p.trace == [RemoveEntity(id), Suppress, PickupableOnDestroy, Destroy, Release]
  {
  }

  /** Any other object is handed to `Entities.DestroyObject`, and nothing else happens. */
  lemma DefaultTrace(w: World, id: NitroxId, host: Host)
    requires id in w.objects && CategoryOf(w.objects[id]) == DefaultCleanup
    ensures var p := Process(w, id, host);
            !p.threw ==> p.trace == [RemoveEntity(id), Suppress, DestroyObject, Release]
  {
  }

  /** The state changes an action makes to the object it is performed on. */
  function ApplyAction(t: Target, a: Action): Target {
    match a
    case SetHealth(h) => if t.subRoot.Some? then t.(subRoot := Some(t.subRoot.value.(health := h))) else t
    case SetOldHPPercent(x) => if t.subRoot.Some? then t.(subRoot := Some(t.subRoot.value.(oldHPPercent := x))) else t
    case _ => t
  }

  function ApplyTrace(t: Target, acts: seq<Action>): Target
    decreases |acts|
  {
    if |acts| == 0 then t else ApplyTrace(ApplyAction(t, acts[0]), acts[1..])
  }

  lemma {:induction false} ApplyTraceConcat(t: Target, xs: seq<Action>, ys: seq<Action>)
    ensures ApplyTrace(t, xs + ys) == ApplyTrace(ApplyTrace(t, xs), ys)
    decreases |xs|
  {
    if |xs| == 0 {
      assert xs + ys == ys;
    } else {
      assert (xs + ys)[1..] == xs[1..] + ys;
      ApplyTraceConcat(ApplyAction(t, xs[0]), xs[1..], ys);
    }
  }

  /** Actions that change no object state leave it as it is. */
  lemma {:induction false} ApplyTraceInert(t: Target, acts: seq<Action>)
    requires forall k | 0 <= k < |acts| :: !acts[k].SetHealth? && !acts[k].SetOldHPPercent?
    ensures ApplyTrace(t, acts) == t
    decreases |acts|
  {
    if |acts| > 0 {
      ApplyTraceInert(t, acts[1..]);
    }
  }

  /** What the first `n` calls of a cleanup do to the object is what those calls do to it,
      one after the other. */
  lemma CleanupFollowsTrace(t: Target, host: Host, n: nat)
    requires n <= |Cleanup(t, host)|
    ensures Cleaned(t, n) == ApplyTrace(t, Cleanup(t, host)[..n])
  {
    var acts := Cleanup(t, host);
    if CategoryOf(t) == SubRootCleanup && t.subRoot.value.health > 0.0 {
      var zeroing := [SetOldHPPercent(0.0), SetHealth(0.0)];
      var rest := [NotifyDamageReceivers(DAMAGE_TYPE_RUN_ORIGINAL), Kill, OnTakeDamage(DAMAGE_TYPE_RUN_ORIGINAL)];
      assert acts == zeroing + rest;
      if n == 0 {
        assert acts[..n] == [];
      } else if n == 1 {
        assert acts[..n] == [SetOldHPPercent(0.0)];
        assert ApplyTrace(t, acts[..n]) == ApplyTrace(ApplyAction(t, SetOldHPPercent(0.0)), []);
      } else {
        assert acts[..n] == zeroing + rest[..n - 2];
        ApplyTraceConcat(t, zeroing, rest[..n - 2]);
        ApplyTraceInert(ApplyTrace(t, zeroing), rest[..n - 2]);
      }
    } else {
      CleanupWithin(t, host);
      forall k | 0 <= k < n
        ensures !acts[..n][k].SetHealth? && !acts[..n][k].SetOldHPPercent?
      {
        assert acts[..n][k] == acts[k];
        assert BelongsTo(acts[k], CategoryOf(t));
      }
      ApplyTraceInert(t, acts[..n]);
    }
  }

  /** The found object's new state is what its trace does to it, action by action, whether
      the cleanup completes or throws. */
  lemma ProcessFollowsTrace(w: World, id: NitroxId, host: Host)
    requires id in w.objects
    ensures var p := Process(w, id, host);
            p.world.objects[id] == ApplyTrace(w.objects[id], p.trace)
  {
    var t := w.objects[id];
    var acts := Cleanup(t, host);
    var n := Completed(|acts|, host);
    var done := acts[..n];
    var head := [RemoveEntity(id), Suppress];
    FoundTrace(w, id, host);
    ApplyTraceConcat(t, head + done, [Release]);
    ApplyTraceConcat(t, head, done);
    ApplyTraceInert(t, head);
    ApplyTraceInert(ApplyTrace(t, head + done), [Release]);
    CleanupFollowsTrace(t, host, n);
  }
}
