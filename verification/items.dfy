/** `Items`: the outbound reporters for pickup, drop and placement.

  Each reporter reads the object (and its context), asks the identity
  registry for ids, builds an entity snapshot and sends at most one packet.
  Sends and the other visible side effects are appended, in order, to the
  client's effect trace. An exception that escapes a reporter is recorded as
  `raised`; the effects performed before it remain in the trace.
 */
module Items {
  import opened Entities
  import opened IdRegistry
  import opened Scene
  import PrefabChildren

  datatype Effect =
    | Sent(packet: Packet)
    | RemoteControlRemoved(obj: Handle)      // RemoveAnyRemoteControl
    | MarkedAsSpawned(id: NitroxId)          // Entities.MarkAsSpawned
    | StoppedWatching(id: NitroxId)          // EntityPositionBroadcaster.StopWatchingEntity
    | PickingUpSet(obj: Handle)              // PickingUpObject := obj
    | PickingUpCleared                       // PickingUpObject := null
    | PipeUidsRewritten(pipe: Handle, rootPipeId: NitroxId, parentPipeId: NitroxId)

  /** The client state the reporters touch: the registry, the single-slot
      `PickingUpObject` marker and the trace of effects so far. */
  datatype Client = Client(reg: Registry, pickingUp: Option<Handle>, effects: seq<Effect>)

  /** What a reporter leaves behind: the client, the entity it sent (if any)
      and whether an exception escaped it. */
  datatype Report = Report(client: Client, sent: Option<Entity>, raised: bool)

  /** The packets in a trace of effects, in order. */
  function Packets(effects: seq<Effect>): (ps: seq<Packet>)
    ensures |ps| <= |effects|
  {
    if |effects| == 0 then []
    else (if effects[0].Sent? then [effects[0].packet] else []) + Packets(effects[1..])
  }

  lemma {:induction false} PacketsAppend(a: seq<Effect>, b: seq<Effect>)
    ensures Packets(a + b) == Packets(a) + Packets(b)
    decreases |a|
  {
    if |a| > 0 {
      assert (a + b)[1..] == a[1..] + b;
      PacketsAppend(a[1..], b);
    } else {
      assert a + b == b;
    }
  }

  /** A trace without sends has no packets. */
  lemma {:induction false} PacketsNone(es: seq<Effect>)
    requires forall k | 0 <= k < |es| :: !es[k].Sent?
    ensures Packets(es) == []
    decreases |es|
  {
    if |es| > 0 {
      PacketsNone(es[1..]);
    }
  }

  /** Appending effects that are not sends leaves the packets unchanged. */
  lemma PacketsAppendSilent(a: seq<Effect>, b: seq<Effect>)
    requires forall k | 0 <= k < |b| :: !b[k].Sent?
    ensures Packets(a + b) == Packets(a)
  {
    PacketsAppend(a, b);
    PacketsNone(b);
  }

  /** Appending one send adds exactly its packet. */
  lemma PacketsAppendSend(a: seq<Effect>, p: Packet)
    ensures Packets(a + [Sent(p)]) == Packets(a) + [p]
  {
    PacketsAppend(a, [Sent(p)]);
    assert Packets([Sent(p)]) == [p] + Packets([]);
  }

  /** The three bookkeeping effects of an untracked conversion send nothing. */
  lemma PacketsAppendUntracked(a: seq<Effect>, h: Handle, id: NitroxId)
    ensures Packets(a + [MarkedAsSpawned(id), RemoteControlRemoved(h), StoppedWatching(id)]) == Packets(a)
  {
    PacketsAppendSilent(a, [MarkedAsSpawned(id), RemoteControlRemoved(h), StoppedWatching(id)]);
  }

  /** The player object, and the sub it is in (None when there is none or it is dead). */
  datatype PlayerState = PlayerState(obj: Handle, alive: bool, currentSub: Option<Handle>)

  /** An oxygen pipe connection as seen from the ghost model being placed. */
  datatype PipeRoot = PipeRoot(gameObject: Option<Handle>)
  datatype PipeConnection = PipeConnection(gameObject: Option<Handle>, attachPoint: Point, root: Option<PipeRoot>)

  /** The children snapshot of `o` under id `id`, read off a registry that holds ids for all of them. */
  ghost predicate HasChildSnapshot(e: Entity, o: GameObject, ids: map<Handle, NitroxId>)
    requires e.IsWorldEntity()
  {
    && PrefabChildren.HasIds(PrefabChildren.Prefabs(o), ids)
    && e.children == PrefabChildren.ChildSnapshot(o, e.id, ids)
  }

  /** The fields every drop/place snapshot of `o` shares: level 0, the object's class id,
      its registry id, the given tech type, its metadata and its children. */
  ghost predicate Describes(e: Entity, o: GameObject, techType: TechType, ids: map<Handle, NitroxId>) {
    && e.IsWorldEntity()
    && e.level == 0
    && o.classId == Some(e.classId)
    && o.handle in ids && e.id == ids[o.handle]
    && e.techType == techType
    && e.metadata == o.metadata
    && HasChildSnapshot(e, o, ids)
  }

  /** The packets of `after` are those of `before` followed by `extra`. */
  ghost predicate SendsExactly(before: Client, after: Client, extra: seq<Packet>) {
    && |after.effects| >= |before.effects|
    && after.effects[..|before.effects|] == before.effects
    && Packets(after.effects) == Packets(before.effects) + extra
  }

  /** The water park's id when the water park sits two levels above the object and has an id. */
  function TryGetParentWaterParkId(o: GameObject, ancestors: seq<GameObject>, reg: Registry): (w: Option<NitroxId>)
    requires ParentChain(o, ancestors)
    ensures w.Some? <==> exists g :: GrandparentOf(g, o, ancestors) && g.waterPark && g.handle in reg.ids
    ensures w.Some? ==> exists g :: GrandparentOf(g, o, ancestors) && g.handle in reg.ids && w.value == reg.ids[g.handle]
  {
    match TryGetParentWaterPark(o, ancestors)
    case None => None
    case Some(park) => TryGetNitroxId(reg, park.handle)
  }

  /** The id of a pipe connection's object: None when there is no connection, its object is gone,
      or the object has no id. */
  function ConnectionId(obj: Option<Handle>, reg: Registry): (id: Option<NitroxId>)
    ensures id.Some? <==> obj.Some? && obj.value in reg.ids
  {
    match obj
    case None => None
    case Some(h) => TryGetNitroxId(reg, h)
  }

  function AppendEffects(c: Client, es: seq<Effect>): (c': Client)
    ensures c'.reg == c.reg && c'.pickingUp == c.pickingUp && c'.effects == c.effects + es
  {
    c.(effects := c.effects + es)
  }

  /** `Items.Dropped`: report an object dropped into the world.

      The object is stripped of remote control and given an id; then one of
      three snapshots is chosen, in priority order: a GlobalRootEntity for a
      global-root object, or for a pickupable whose water park (two levels up)
      has an id; else an OxygenPipeEntity for an oxygen pipe, which needs both
      its parent pipe and the chain's root pipe to have ids (otherwise nothing
      is sent and the pipe's UIDs are left alone); else a plain WorldEntity. */
  function Dropped(c: Client, o: GameObject, techType: Option<TechType>, ancestors: seq<GameObject>,
                   ghostParent: Option<PipeConnection>): (r: Report)
    requires ParentChain(o, ancestors)
    ensures |r.client.effects| > |c.effects|
    ensures r.client.effects[..|c.effects| + 1] == c.effects + [RemoteControlRemoved(o.handle)]
    ensures Extends(c.reg, r.client.reg) && (Valid(c.reg) ==> Valid(r.client.reg))
    ensures o.handle in r.client.reg.ids
    ensures r.client.pickingUp == c.pickingUp
    ensures r.raised <==> o.classId.None?
    ensures r.sent.Some? ==> SendsExactly(c, r.client, [EntitySpawnedByClient(r.sent.value, true)])
    ensures r.sent.None? ==> SendsExactly(c, r.client, [])
    ensures r.sent.Some? ==> Describes(r.sent.value, o, techType.GetOr(o.craftTechType), r.client.reg.ids)
  {
    var tech := techType.GetOr(o.craftTechType);
    var c1 := AppendEffects(c, [RemoteControlRemoved(o.handle)]);
    PacketsAppendSilent(c.effects, [RemoteControlRemoved(o.handle)]);
    if o.classId.None? then
      var a := GetIdOrGenerateNew(c1.reg, o.handle);
      Report(c1.(reg := a.reg), None, true)
    else
      var p := Prepare(c1, o);
      var parkId := TryGetParentWaterParkId(o, ancestors, p.client.reg);
      if IsGlobalRootObject(o) || (o.pickupable.Some? && parkId.Some?) then
        var parentId := if IsGlobalRootObject(o) then None else parkId;
        Send(c, p.client, GlobalRootEntity(LocalTransform, 0, o.classId.value, true, p.id, tech, o.metadata, parentId, p.children))
      else if o.oxygenPipe then
        DroppedPipe(c, p, o, tech, ghostParent)
      else
        Send(c, p.client, WorldEntity(WorldTransform, 0, o.classId.value, false, p.id, tech, o.metadata, None, p.children))
  }

  /** Which variant `Dropped` sends: a GlobalRootEntity with a local transform, spawned by the
      server, for a global-root object (no parent) or for a pickupable whose water park has an
      id (parented to the park); else, for an oxygen pipe, an OxygenPipeEntity or nothing, and
      the pipe's UIDs are only rewritten when it is sent; else a WorldEntity with its world
      transform, not spawned by the server and without parent. */
  lemma DroppedVariant(c: Client, o: GameObject, techType: Option<TechType>, ancestors: seq<GameObject>,
                       ghostParent: Option<PipeConnection>)
    requires ParentChain(o, ancestors)
    ensures var r := Dropped(c, o, techType, ancestors, ghostParent);
            && (!r.raised && IsGlobalRootObject(o) ==>
                  && r.sent.Some? && r.sent.value.GlobalRootEntity?
                  && r.sent.value.transform == LocalTransform
                  && r.sent.value.parentId == None && r.sent.value.spawnedByServer)
            && (!r.raised && !IsGlobalRootObject(o) && o.pickupable.Some?
                && TryGetParentWaterParkId(o, ancestors, r.client.reg).Some? ==>
                  && r.sent.Some? && r.sent.value.GlobalRootEntity?
                  && r.sent.value.transform == LocalTransform
                  && r.sent.value.parentId == TryGetParentWaterParkId(o, ancestors, r.client.reg)
                  && r.sent.value.spawnedByServer)
            && (!r.raised && !IsGlobalRootObject(o)
                && !(o.pickupable.Some? && TryGetParentWaterParkId(o, ancestors, r.client.reg).Some?)
                && o.oxygenPipe ==>
                  && (r.sent.Some? ==> r.sent.value.OxygenPipeEntity?)
                  && (r.sent.None? ==> forall k | |c.effects| <= k < |r.client.effects| :: !r.client.effects[k].PipeUidsRewritten?))
            && (!r.raised && !IsGlobalRootObject(o)
                && !(o.pickupable.Some? && TryGetParentWaterParkId(o, ancestors, r.client.reg).Some?)
                && !o.oxygenPipe ==>
                  && r.sent.Some? && r.sent.value.WorldEntity?
                  && r.sent.value.transform == WorldTransform
                  && r.sent.value.parentId == None && !r.sent.value.spawnedByServer)
  {
  }

  /** The object's id and children snapshot, computed before any snapshot is chosen. */
  datatype Prepared = Prepared(client: Client, id: NitroxId, children: seq<Entity>)

  /** Give `o` an id (created if missing) and snapshot its notable children under it. */
  function Prepare(c: Client, o: GameObject): (p: Prepared)
    ensures p.client.effects == c.effects && p.client.pickingUp == c.pickingUp
    ensures Extends(c.reg, p.client.reg) && (Valid(c.reg) ==> Valid(p.client.reg))
    ensures o.handle in p.client.reg.ids && p.id == p.client.reg.ids[o.handle]
    ensures PrefabChildren.HasIds(PrefabChildren.Prefabs(o), p.client.reg.ids)
    ensures p.children == PrefabChildren.ChildSnapshot(o, p.id, p.client.reg.ids)
  {
    var a := GetIdOrGenerateNew(c.reg, o.handle);
    var kids := PrefabChildren.GetPrefabChildren(o, a.id, a.reg);
    PrefabChildren.GetPrefabChildrenIsSnapshot(o, a.id, a.reg);
    Prepared(c.(reg := kids.reg), a.id, kids.children)
  }

  /** The oxygen-pipe branch of `Dropped`: the parent pipe and the chain's root pipe must both
      resolve to ids; only then are the pipe's UIDs rewritten to those ids and the entity sent. */
  function DroppedPipe(c: Client, p: Prepared, o: GameObject, tech: TechType, ghostParent: Option<PipeConnection>): (r: Report)
    requires o.classId.Some?
    requires |p.client.effects| >= |c.effects| && p.client.effects[..|c.effects|] == c.effects
    requires Packets(p.client.effects) == Packets(c.effects)
    ensures !r.raised && r.client.reg == p.client.reg && r.client.pickingUp == p.client.pickingUp
    ensures |r.client.effects| >= |p.client.effects| && r.client.effects[..|p.client.effects|] == p.client.effects
    ensures r.sent.Some? <==>
              && ghostParent.Some?
              && ConnectionId(ghostParent.value.gameObject, p.client.reg).Some?
              && ghostParent.value.root.Some?
              && ConnectionId(ghostParent.value.root.value.gameObject, p.client.reg).Some?
    ensures r.sent.None? ==> r.client == p.client
    ensures r.sent.Some? ==> SendsExactly(c, r.client, [EntitySpawnedByClient(r.sent.value, true)])
    ensures r.sent.Some? ==>
              var e := r.sent.value;
              && e.OxygenPipeEntity?
              && e == OxygenPipeEntity(WorldTransform, 0, o.classId.value, false, p.id, tech, o.metadata, None, p.children,
                                       e.rootPipeId, e.parentPipeId, ghostParent.value.attachPoint)
              && e.parentPipeId == p.client.reg.ids[ghostParent.value.gameObject.value]
              && e.rootPipeId == p.client.reg.ids[ghostParent.value.root.value.gameObject.value]
              && r.client.effects == p.client.effects + [PipeUidsRewritten(o.handle, e.rootPipeId, e.parentPipeId),
                                                         Sent(EntitySpawnedByClient(e, true))]
  {
    var parentPipeId := if ghostParent.Some? then ConnectionId(ghostParent.value.gameObject, p.client.reg) else None;
    if parentPipeId.None? then Report(p.client, None, false)
    else
      var rootPipeId := if ghostParent.value.root.Some? then ConnectionId(ghostParent.value.root.value.gameObject, p.client.reg) else None;
      if rootPipeId.None? then Report(p.client, None, false)
      else
        var rewritten := PipeUidsRewritten(o.handle, rootPipeId.value, parentPipeId.value);
        var c4 := AppendEffects(p.client, [rewritten]);
        PacketsAppendSilent(p.client.effects, [rewritten]);
        var e := OxygenPipeEntity(WorldTransform, 0, o.classId.value, false, p.id, tech, o.metadata, None, p.children,
                                  rootPipeId.value, parentPipeId.value, ghostParent.value.attachPoint);
        Send(c, c4, e)
  }

  /** Append the send of `EntitySpawnedByClient(e, true)` to a client derived from `c`. */
  function Send(c: Client, cur: Client, e: Entity): (r: Report)
    requires |cur.effects| >= |c.effects| && cur.effects[..|c.effects|] == c.effects
    requires Packets(cur.effects) == Packets(c.effects)
    ensures r.sent == Some(e) && !r.raised
    ensures r.client == AppendEffects(cur, [Sent(EntitySpawnedByClient(e, true))])
    ensures SendsExactly(c, r.client, [EntitySpawnedByClient(e, true)])
  {
    var p := EntitySpawnedByClient(e, true);
    PacketsAppendSend(cur.effects, p);
    Report(AppendEffects(cur, [Sent(p)]), Some(e), false)
  }

  /** `Items.Placed`: report a figure, poster or light placed with the place tool.
      A global-root object becomes a GlobalRootEntity with its world transform;
      otherwise, when the live player is in a live sub that has an id, a
      GlobalRootEntity parented to that sub with a local transform; otherwise a
      PlacedWorldEntity with its world transform. Exactly one packet is sent. */
  function Placed(c: Client, o: GameObject, techType: TechType, player: PlayerState): (r: Report)
    ensures |r.client.effects| > |c.effects|
    ensures r.client.effects[..|c.effects| + 1] == c.effects + [RemoteControlRemoved(o.handle)]
    ensures Extends(c.reg, r.client.reg) && (Valid(c.reg) ==> Valid(r.client.reg))
    ensures o.handle in r.client.reg.ids
    ensures r.client.pickingUp == c.pickingUp
    ensures r.raised <==> o.classId.None?
    ensures r.raised ==> r.sent.None? && SendsExactly(c, r.client, [])
    ensures !r.raised ==> r.sent.Some? && SendsExactly(c, r.client, [EntitySpawnedByClient(r.sent.value, true)])
    ensures r.sent.Some? ==> Describes(r.sent.value, o, techType, r.client.reg.ids) && r.sent.value.spawnedByServer
    ensures !r.raised && IsGlobalRootObject(o) ==>
              && r.sent.value.GlobalRootEntity?
              && r.sent.value.transform == WorldTransform && r.sent.value.parentId == None
    ensures !r.raised && !IsGlobalRootObject(o) && player.alive && player.currentSub.Some?
            && player.currentSub.value in r.client.reg.ids ==>
              && r.sent.value.GlobalRootEntity?
              && r.sent.value.transform == LocalTransform
              && r.sent.value.parentId == Some(r.client.reg.ids[player.currentSub.value])
    ensures !r.raised && !IsGlobalRootObject(o)
            && !(player.alive && player.currentSub.Some? && player.currentSub.value in r.client.reg.ids) ==>
              && r.sent.value.PlacedWorldEntity?
              && r.sent.value.transform == WorldTransform && r.sent.value.parentId == None
  {
    var c1 := AppendEffects(c, [RemoteControlRemoved(o.handle)]);
    PacketsAppendSilent(c.effects, [RemoteControlRemoved(o.handle)]);
    if o.classId.None? then
      var a := GetIdOrGenerateNew(c1.reg, o.handle);
      Report(c1.(reg := a.reg), None, true)
    else
      var p := Prepare(c1, o);
      var classId := o.classId.value;
      var subId := if player.alive && player.currentSub.Some? then TryGetNitroxId(p.client.reg, player.currentSub.value) else None;
      if IsGlobalRootObject(o) then
        Send(c, p.client, GlobalRootEntity(WorldTransform, 0, classId, true, p.id, techType, o.metadata, None, p.children))
      else if subId.Some? then
        Send(c, p.client, GlobalRootEntity(LocalTransform, 0, classId, true, p.id, techType, o.metadata, subId, p.children))
      else
        Send(c, p.client, PlacedWorldEntity(WorldTransform, 0, classId, true, p.id, techType, o.metadata, None, p.children))
  }

  /** The result of a registry-reading conversion: the value, or an exception from a
      missing required component; either way with the registry as it was left. */
  datatype Outcome<T> = Returned(value: T, reg: Registry) | Threw(reg: Registry)

  /** `Items.ConvertToInventoryItemEntity`: the object's id (created first, even if the
      conversion then fails), its class id and pickupable tech type (both required),
      its metadata and its children snapshot, parented to `parentId`. */
  function ConvertToInventoryItemEntity(o: GameObject, parentId: NitroxId, reg: Registry): (r: Outcome<Entity>)
    ensures Extends(reg, r.reg) && (Valid(reg) ==> Valid(r.reg))
    ensures o.handle in r.reg.ids
    ensures r.Returned? <==> o.classId.Some? && o.pickupable.Some?
    ensures r.Returned? ==>
              var e := r.value;
              && e.InventoryItemEntity?
              && e.id == r.reg.ids[o.handle]
              && Some(e.classId) == o.classId
              && Some(e.techType) == o.pickupable
              && e.metadata == o.metadata
              && e.parentId == Some(parentId)
  {
    var a := GetIdOrGenerateNew(reg, o.handle);
    if o.classId.None? || o.pickupable.None? then Threw(a.reg)
    else
      var kids := PrefabChildren.GetPrefabChildren(o, a.id, a.reg);
      PrefabChildren.GetPrefabChildrenIsSnapshot(o, a.id, a.reg);
      var children := kids.children + o.installedBattery;
      Returned(InventoryItemEntity(a.id, o.classId.value, o.pickupable.value, o.metadata, Some(parentId), children), kids.reg)
  }

  /** The inventory entity's children are the children snapshot of the object under the entity's
      id, followed by whatever the battery helper adds for the object. */
  lemma ConvertToInventoryItemEntityChildren(o: GameObject, parentId: NitroxId, reg: Registry)
    ensures var r := ConvertToInventoryItemEntity(o, parentId, reg);
            r.Returned? ==>
              && PrefabChildren.HasIds(PrefabChildren.Prefabs(o), r.reg.ids)
              && r.value.children == PrefabChildren.ChildSnapshot(o, r.value.id, r.reg.ids) + o.installedBattery
  {
    var a := GetIdOrGenerateNew(reg, o.handle);
    PrefabChildren.GetPrefabChildrenIsSnapshot(o, a.id, a.reg);
  }

  /** The result of a step that may raise: a value and the client, or the client as left by the exception. */
  datatype Attempt<T> = Done(value: T, client: Client) | Failed(client: Client)

  /** `Items.ConvertToInventoryEntityUntracked`: convert, then mark the entity as spawned, strip
      remote control from the object and stop broadcasting its position, in that order. */
  function ConvertToInventoryEntityUntracked(c: Client, o: GameObject, parentId: NitroxId): (r: Attempt<Entity>)
    ensures r.client.pickingUp == c.pickingUp
    ensures Extends(c.reg, r.client.reg) && (Valid(c.reg) ==> Valid(r.client.reg))
    ensures o.handle in r.client.reg.ids
    ensures r.Done? <==> o.classId.Some? && o.pickupable.Some?
    ensures r.Failed? ==> r.client.effects == c.effects
    ensures r.Done? ==>
              && r.value == ConvertToInventoryItemEntity(o, parentId, c.reg).value
              && r.client.effects == c.effects + [MarkedAsSpawned(r.value.id), RemoteControlRemoved(o.handle), StoppedWatching(r.value.id)]
  {
    var conv := ConvertToInventoryItemEntity(o, parentId, c.reg);
    if conv.Threw? then Failed(c.(reg := conv.reg))
    else
      var e := conv.value;
      Done(e, Client(conv.reg, c.pickingUp, c.effects + [MarkedAsSpawned(e.id), RemoteControlRemoved(o.handle), StoppedWatching(e.id)]))
  }

  /** `Items.PickedUp`: report an object picked up into the container `containerId`.
      The `PickingUpObject` marker is set to the object first and cleared last, even when the
      conversion throws (the exception is caught); everything else the call does happens
      between the two. A PickupItem carrying the inventory entity, parented to the
      container, is sent only when the conversion succeeds. */
  function PickedUp(c: Client, o: GameObject, techType: TechType, containerId: NitroxId): (r: Report)
    ensures !r.raised
    ensures r.client.pickingUp == None
    ensures Extends(c.reg, r.client.reg) && (Valid(c.reg) ==> Valid(r.client.reg))
    ensures o.handle in r.client.reg.ids
    ensures r.sent.Some? <==> o.classId.Some? && o.pickupable.Some?
    ensures r.sent.None? ==> r.client.effects == c.effects + [PickingUpSet(o.handle)] + [PickingUpCleared]
    ensures r.sent.Some? ==>
              var e := r.sent.value;
              && e.InventoryItemEntity?
              && e.id == r.client.reg.ids[o.handle]
              && e.parentId == Some(containerId)
              && e == ConvertToInventoryItemEntity(o, containerId, c.reg).value
              && r.client.effects == c.effects + [PickingUpSet(o.handle)]
                                   + [MarkedAsSpawned(e.id), RemoteControlRemoved(o.handle), StoppedWatching(e.id)]
                                   + [Sent(PickupItem(e)), PickingUpCleared]
  {
    var marked := Client(c.reg, Some(o.handle), c.effects + [PickingUpSet(o.handle)]);
    var inner := ConvertToInventoryEntityUntracked(marked, o, containerId);
    if inner.Failed? then
      Report(Client(inner.client.reg, None, inner.client.effects + [PickingUpCleared]), None, false)
    else
      Report(Client(inner.client.reg, None, inner.client.effects + [Sent(PickupItem(inner.value)), PickingUpCleared]),
             Some(inner.value), false)
  }

  /** The packets of a successful pickup's trace: the PickupItem alone. */
  lemma PickupTracePackets(base: seq<Effect>, h: Handle, id: NitroxId, p: Packet)
    ensures Packets(base + [PickingUpSet(h)] + [MarkedAsSpawned(id), RemoteControlRemoved(h), StoppedWatching(id)]
                    + [Sent(p), PickingUpCleared]) == Packets(base) + [p]
  {
    var pre := [PickingUpSet(h), MarkedAsSpawned(id), RemoteControlRemoved(h), StoppedWatching(id)];
    var withSend := base + pre + [Sent(p)];
    assert base + [PickingUpSet(h)] + [MarkedAsSpawned(id), RemoteControlRemoved(h), StoppedWatching(id)]
           + [Sent(p), PickingUpCleared] == withSend + [PickingUpCleared];
    PacketsAppendSilent(base, pre);
    PacketsAppendSend(base + pre, p);
    PacketsAppendSilent(withSend, [PickingUpCleared]);
  }

  /** A pickup sends exactly one packet, a PickupItem, when the object converts, and none otherwise. */
  lemma PickedUpPackets(c: Client, o: GameObject, techType: TechType, containerId: NitroxId)
    ensures var r := PickedUp(c, o, techType, containerId);
            && (r.sent.None? ==> SendsExactly(c, r.client, []))
            && (r.sent.Some? ==> SendsExactly(c, r.client, [PickupItem(r.sent.value)]))
  {
    var r := PickedUp(c, o, techType, containerId);
    if r.sent.None? {
      PacketsAppendSilent(c.effects, [PickingUpSet(o.handle)] + [PickingUpCleared]);
      assert c.effects + [PickingUpSet(o.handle)] + [PickingUpCleared] == c.effects + ([PickingUpSet(o.handle)] + [PickingUpCleared]);
    } else {
      PickupTracePackets(c.effects, o.handle, r.sent.value.id, PickupItem(r.sent.value));
    }
  }

  /** `Items.PickedUpByPlayer`: a pickup into the player's inventory. When the player has no id
      nothing happens at all; otherwise it is a pickup parented to the player's id. */
  function PickedUpByPlayer(c: Client, player: PlayerState, o: GameObject, techType: TechType): (r: Report)
    ensures player.obj !in c.reg.ids ==> r == Report(c, None, false)
    ensures player.obj in c.reg.ids ==> r.client.pickingUp == None
    ensures player.obj in c.reg.ids ==> r == PickedUp(c, o, techType, c.reg.ids[player.obj])
    ensures player.obj in c.reg.ids && r.sent.Some? ==>
              r.sent.value.InventoryItemEntity? && r.sent.value.parentId == Some(c.reg.ids[player.obj])
  {
    match TryGetNitroxId(c.reg, player.obj)
    case None => Report(c, None, false)
    case Some(playerId) => PickedUp(c, o, techType, playerId)
  }

  /** `Items.Planted`: a planted object becomes an inventory entity of its planter and is
      sent as an additive spawn; a conversion failure is not caught here and escapes. */
  function Planted(c: Client, o: GameObject, parentId: NitroxId): (r: Report)
    ensures r.client.pickingUp == c.pickingUp
    ensures Extends(c.reg, r.client.reg) && (Valid(c.reg) ==> Valid(r.client.reg))
    ensures o.handle in r.client.reg.ids
    ensures r.raised <==> !(o.classId.Some? && o.pickupable.Some?)
    ensures r.raised ==> r.sent.None? && SendsExactly(c, r.client, [])
    ensures !r.raised ==>
              && r.sent.Some? && SendsExactly(c, r.client, [EntitySpawnedByClient(r.sent.value, true)])
              && r.sent.value.InventoryItemEntity? && r.sent.value.parentId == Some(parentId)
              && r.sent.value.id == r.client.reg.ids[o.handle]
              && r.sent.value == ConvertToInventoryItemEntity(o, parentId, c.reg).value
  {
    match ConvertToInventoryEntityUntracked(c, o, parentId)
    case Failed(c') =>
      assert c'.effects[..|c.effects|] == c.effects;
      Report(c', None, true)
    case Done(e, c') =>
      PacketsAppendUntracked(c.effects, o.handle, e.id);
      Send(c, c', e)
  }

  /** One equipment slot: its name and the item stored in it, if any. */
  datatype Slot = Slot(name: string, item: Option<GameObject>)

  /** Stored items are inventory items, so each has a Pickupable. */
  predicate ItemsPickupable(slots: seq<Slot>) {
    forall i | 0 <= i < |slots| && slots[i].item.Some? :: slots[i].item.value.pickupable.Some?
  }

  /** The occupied slots, in slot order. */
  function Occupied(slots: seq<Slot>): (os: seq<Slot>)
    ensures forall s | s in os :: s in slots && s.item.Some?
    ensures |os| <= |slots|
  {
    if |slots| == 0 then []
    else
      var last := slots[|slots| - 1];
      Occupied(slots[..|slots| - 1]) + (if last.item.Some? then [last] else [])
  }

  /** The occupied slots of a prefix are a prefix of the occupied slots. */
  lemma {:induction false} OccupiedPrefix(slots: seq<Slot>, n: nat)
    requires n <= |slots|
    ensures |Occupied(slots[..n])| <= |Occupied(slots)|
    ensures Occupied(slots)[..|Occupied(slots[..n])|] == Occupied(slots[..n])
    decreases |slots| - n
  {
    if n < |slots| {
      var init := slots[..|slots| - 1];
      assert init[..n] == slots[..n];
      OccupiedPrefix(init, n);
    } else {
      assert slots[..n] == slots;
    }
  }

  /** `e` is the installed-module record of the item in slot `s` of the equipment `equipmentId`:
      the slot name, the item's class id, id, pickupable tech type and metadata, and its
      children snapshot. */
  ghost predicate ModuleOf(e: Entity, s: Slot, equipmentId: NitroxId, ids: map<Handle, NitroxId>)
    requires s.item.Some?
  {
    var o := s.item.value;
    && o.classId.Some? && o.pickupable.Some?
    && o.handle in ids
    && PrefabChildren.HasIds(PrefabChildren.Prefabs(o), ids)
    && e == InstalledModuleEntity(s.name, o.classId.value, ids[o.handle], o.pickupable.value, o.metadata,
                                  Some(equipmentId), PrefabChildren.ChildSnapshot(o, ids[o.handle], ids))
  }

  lemma ModuleOfStable(e: Entity, s: Slot, equipmentId: NitroxId, ids: map<Handle, NitroxId>, ids': map<Handle, NitroxId>)
    requires s.item.Some? && ModuleOf(e, s, equipmentId, ids)
    requires forall h | h in ids :: h in ids' && ids'[h] == ids[h]
    ensures ModuleOf(e, s, equipmentId, ids')
  {
    var o := s.item.value;
    PrefabChildren.ChildSnapshotStable(o, ids[o.handle], ids, ids');
  }

  /** The loop body of `GetEquipmentModuleEntities` for an occupied slot: the class id is
      required first, then the item is given an id and its children are snapshot. */
  function InstallModule(s: Slot, equipmentId: NitroxId, reg: Registry): (m: Outcome<Entity>)
    requires s.item.Some? && s.item.value.pickupable.Some?
    ensures Extends(reg, m.reg) && (Valid(reg) ==> Valid(m.reg))
    ensures m.Returned? <==> s.item.value.classId.Some?
    ensures m.Threw? ==> m.reg == reg
    ensures m.Returned? ==> ModuleOf(m.value, s, equipmentId, m.reg.ids)
  {
    var o := s.item.value;
    if o.classId.None? then Threw(reg)
    else
      var a := GetIdOrGenerateNew(reg, o.handle);
      var kids := PrefabChildren.GetPrefabChildren(o, a.id, a.reg);
      PrefabChildren.GetPrefabChildrenIsSnapshot(o, a.id, a.reg);
      Returned(InstalledModuleEntity(s.name, o.classId.value, a.id, o.pickupable.value, o.metadata,
                                   Some(equipmentId), kids.children), kids.reg)
  }

  /** The occupied slots of `slots[..i + 1]`, given those of `slots[..i]`. */
  lemma OccupiedStep(slots: seq<Slot>, i: nat)
    requires i < |slots|
    ensures Occupied(slots[..i + 1]) == Occupied(slots[..i]) + (if slots[i].item.Some? then [slots[i]] else [])
  {
    assert slots[..i + 1][..i] == slots[..i];
  }

  /** The slot at `i` is the next occupied one after those of `slots[..i]`. */
  lemma OccupiedAt(slots: seq<Slot>, i: nat)
    requires i < |slots| && slots[i].item.Some?
    ensures |Occupied(slots[..i])| < |Occupied(slots)|
    ensures Occupied(slots)[|Occupied(slots[..i])|] == slots[i]
    ensures forall j | 0 <= j < |Occupied(slots[..i])| :: Occupied(slots)[j] == Occupied(slots[..i])[j]
  {
    var before := Occupied(slots[..i]);
    var all := Occupied(slots);
    var n := |before|;
    OccupiedStep(slots, i);
    OccupiedPrefix(slots, i + 1);
    assert all[..n + 1] == before + [slots[i]];
    assert all[..n + 1][n] == slots[i];
    forall j | 0 <= j < n
      ensures all[j] == before[j]
    {
      assert all[..n + 1][j] == all[j];
    }
  }

  /** `es` are the installed-module records of the occupied slots `os`, in order. */
  ghost predicate Built(es: seq<Entity>, os: seq<Slot>, equipmentId: NitroxId, ids: map<Handle, NitroxId>) {
    && |es| == |os|
    && forall j | 0 <= j < |es| :: os[j].item.Some? && ModuleOf(es[j], os[j], equipmentId, ids)
  }

  lemma BuiltStable(es: seq<Entity>, os: seq<Slot>, equipmentId: NitroxId, ids: map<Handle, NitroxId>, ids': map<Handle, NitroxId>)
    requires Built(es, os, equipmentId, ids)
    requires forall h | h in ids :: h in ids' && ids'[h] == ids[h]
    ensures Built(es, os, equipmentId, ids')
  {
    forall j | 0 <= j < |es|
      ensures ModuleOf(es[j], os[j], equipmentId, ids')
    {
      ModuleOfStable(es[j], os[j], equipmentId, ids, ids');
    }
  }

  lemma BuiltAppend(es: seq<Entity>, os: seq<Slot>, e: Entity, s: Slot, equipmentId: NitroxId, ids: map<Handle, NitroxId>)
    requires Built(es, os, equipmentId, ids)
    requires s.item.Some? && ModuleOf(e, s, equipmentId, ids)
    ensures Built(es + [e], os + [s], equipmentId, ids)
  {
    assert forall j | 0 <= j < |es| :: (es + [e])[j] == es[j] && (os + [s])[j] == os[j];
  }

  /** Every occupied slot's item has a class id. */
  ghost predicate AllIdentified(os: seq<Slot>) {
    forall k | 0 <= k < |os| :: os[k].item.Some? && os[k].item.value.classId.Some?
  }

  /** Occupied slot `k` holds the first item without a class id; the items before it have
      class ids and hold ids in `ids`. */
  ghost predicate FailsAt(os: seq<Slot>, k: int, ids: map<Handle, NitroxId>) {
    && 0 <= k < |os|
    && os[k].item.Some? && os[k].item.value.classId.None?
    && forall j | 0 <= j < k ::
         os[j].item.Some? && os[j].item.value.classId.Some? && os[j].item.value.handle in ids
  }

  lemma BuiltIdentified(es: seq<Entity>, os: seq<Slot>, equipmentId: NitroxId, ids: map<Handle, NitroxId>)
    requires Built(es, os, equipmentId, ids)
    ensures AllIdentified(os)
  {
  }

  /** When the slot at `i` is occupied by an item without a class id and the slots before it
      have been built, the call fails at that slot. */
  lemma ThrowWitness(slots: seq<Slot>, i: nat, es: seq<Entity>, equipmentId: NitroxId, ids: map<Handle, NitroxId>)
    requires i < |slots| && slots[i].item.Some? && slots[i].item.value.classId.None?
    requires Built(es, Occupied(slots[..i]), equipmentId, ids)
    ensures FailsAt(Occupied(slots), |Occupied(slots[..i])|, ids)
    ensures !AllIdentified(Occupied(slots))
  {
    OccupiedAt(slots, i);
  }

  /** One iteration of `GetEquipmentModuleEntities` over the slot at `i`, given the records
      `es` of the occupied slots before it: an empty slot is skipped, an occupied one adds
      its record or makes the call throw. */
  function ModuleStep(slots: seq<Slot>, i: nat, es: seq<Entity>, equipmentId: NitroxId, reg: Registry): (r: Outcome<seq<Entity>>)
    requires i < |slots| && ItemsPickupable(slots)
    requires Built(es, Occupied(slots[..i]), equipmentId, reg.ids)
    ensures Extends(reg, r.reg) && (Valid(reg) ==> Valid(r.reg))
    ensures r.Returned? ==> Built(r.value, Occupied(slots[..i + 1]), equipmentId, r.reg.ids)
    ensures slots[i].item.None? ==> r == Returned(es, reg)
    ensures r.Threw? ==> slots[i].item.Some? && slots[i].item.value.classId.None? && r.reg == reg
    ensures r.Threw? ==> FailsAt(Occupied(slots), |Occupied(slots[..i])|, r.reg.ids) && !AllIdentified(Occupied(slots))
  {
    OccupiedStep(slots, i);
    var s := slots[i];
    if s.item.None? then Returned(es, reg)
    else
      var m := InstallModule(s, equipmentId, reg);
      if m.Threw? then
        ThrowWitness(slots, i, es, equipmentId, reg.ids);
        Threw(reg)
      else
        BuiltStable(es, Occupied(slots[..i]), equipmentId, reg.ids, m.reg.ids);
        BuiltAppend(es, Occupied(slots[..i]), m.value, s, equipmentId, m.reg.ids);
        Returned(es + [m.value], m.reg)
  }

  /** `Items.GetEquipmentModuleEntities`: one InstalledModuleEntity per occupied slot, in slot
      order, parented to the equipment. An item without a class id makes the whole call throw;
      the items before it have been given ids by then. */
  method GetEquipmentModuleEntities(slots: seq<Slot>, equipmentId: NitroxId, reg: Registry) returns (r: Outcome<seq<Entity>>)
    requires ItemsPickupable(slots)
    ensures Extends(reg, r.reg) && (Valid(reg) ==> Valid(r.reg))
    ensures r.Returned? <==> AllIdentified(Occupied(slots))
    ensures r.Returned? ==> Built(r.value, Occupied(slots), equipmentId, r.reg.ids)
    ensures r.Threw? ==> exists k :: FailsAt(Occupied(slots), k, r.reg.ids)
  {
    var es: seq<Entity> := [];
    var cur := reg;
    var i := 0;
    while i < |slots|
      invariant 0 <= i <= |slots|
      invariant Extends(reg, cur) && (Valid(reg) ==> Valid(cur))
      invariant Built(es, Occupied(slots[..i]), equipmentId, cur.ids)
    {
      var step := ModuleStep(slots, i, es, equipmentId, cur);
      ExtendsTransitive(reg, cur, step.reg);
      if step.Threw? {
        assert FailsAt(Occupied(slots), |Occupied(slots[..i])|, step.reg.ids);
        return step;
      }
      es, cur := step.value, step.reg;
      i := i + 1;
    }
    assert slots[..i] == slots;
    BuiltIdentified(es, Occupied(slots), equipmentId, cur.ids);
    return Returned(es, cur);
  }
}
