# Nitrox entity synchronisation: item reporters and the destroy processor

Nitrox is a multiplayer mod for Subnautica. Each client reports the objects a
player handles (dropped, placed, picked up, planted, installed as modules) to
the server as entity records. It also applies the server's `EntityDestroyed`
packets to its local world. This project models two parts of the client:

- `NitroxClient/GameLogic/Items.cs`, the outbound reporters. Each one gives the
  object a network id (created if missing), snapshots the object and its notable
  children into an entity record of the right variant, and sends at most one
  packet.
- `NitroxClient/Communication/Packets/Processors/EntityDestroyedProcessor.cs`,
  the inbound destroy handler. It runs exactly one category-specific teardown,
  inside a scope that suppresses outbound `EntityDestroyed` packets. The scope
  is released even when the teardown throws.

Layout:

| file | module | contents |
|---|---|---|
| `entities.dfy` | `Entities` | `Option`, ids, tech types, the `Entity` variants, packets |
| `registry.dfy` | `IdRegistry` | the object-to-id registry: `GetIdOrGenerateNew`, `TryGetNitroxId` |
| `scene.dfy` | `Scene` | game objects as records of the components the logic reads; hierarchy walk; water-park lookup |
| `prefab_children.dfy` | `PrefabChildren` | `GetPrefabChildren`: the walk as written, a reference definition, and the lemmas joining them |
| `items.dfy` | `Items` | `Dropped`, `Placed`, `PickedUp`, `PickedUpByPlayer`, `Planted`, the inventory conversions, `GetEquipmentModuleEntities` |
| `entity_destroyed.dfy` | `EntityDestroyedProcessor` | `Process` and the per-category teardowns, as a new world state plus an action trace |

Modelling choices:

- A game object is a record. Each component the code asks about is an optional
  field or a flag: PrefabIdentifier class id, TechTag, Pickupable,
  LargeWorldEntity cell level, WaterPark, OxygenPipe and extractable metadata.
  It also carries the child entities the battery helper adds for the object,
  as an opaque list. The record lists its transform children in order. The PrefabIdentifier
  walk is a pre-order traversal that includes the root.
- Network ids are GUIDs in the source. Here a counter stands for them: a fresh
  id is always above every id in use, so it differs from all of them. That
  difference is the only property of a GUID the code relies on. The registry
  also keeps the reverse map from id to object.
- The reporters are pure functions over a `Client` value. It holds the registry,
  the static `PickingUpObject` marker and an ordered trace of visible effects:
  sends, remote-control removal, mark-as-spawned, stop-watching and pipe UID
  rewrites. An exception that escapes a reporter is reported as `raised`; the
  effects made before it stay in the trace. A reporter's context is passed in
  as parameters: the object's complete chain of transform parents, from its
  parent up to the scene root (each one holding the one before it among its
  children; the caller must pass the whole chain, since a shorter prefix also
  satisfies `ParentChain` and would hide a water park), the player, and the oxygen-pipe ghost
  model's connections.
- The destroy processor is a pure function from a world and a packet id to a new
  world and a trace of actions. The world holds the tracked entity ids, the ids
  marked for deletion, and the local objects with the components that choose
  their teardown. Two facts about the game are inputs: its answer to
  `ToNormalMode(true)`, and the position in the teardown of a call that throws,
  if one does.

## Model

| member | source | states |
|---|---|---|
| `IdRegistry.GetIdOrGenerateNew` | NitroxClient/GameLogic/Items.cs:108 | the object ends up with an id; an object that already has one keeps it and the registry is unchanged; otherwise exactly that object is added, under an id no other object holds; ids are never reassigned |
| `IdRegistry.GetIdOrGenerateNewIdempotent` | NitroxClient/GameLogic/Items.cs:249 | asking again for an object's id returns the same id and changes nothing |
| `Scene.TryGetParentWaterPark` | NitroxClient/GameLogic/Items.cs:271-282 | a water park is found exactly when, along the object's parent chain, the parent of its parent exists and carries a WaterPark; the park found is that object, and it holds the object's parent, which holds the object |
| `Items.TryGetParentWaterParkId` | NitroxClient/GameLogic/Items.cs:285-295 | an id is found exactly when the parent of the object's parent carries a WaterPark and has an id, and it is that park's id |
| `PrefabChildren.ClassOrder` | NitroxClient/GameLogic/Items.cs:203-205 | the group keys are distinct, and they are exactly the class ids of the visited members other than the root |
| `PrefabChildren.ClassOrderFirstSeen` | NitroxClient/GameLogic/Items.cs:205 | groups are in first-seen order: a key listed earlier is met in the walk before any member of a later key |
| `PrefabChildren.GetPrefabChildren` | NitroxClient/GameLogic/Items.cs:201-225 | every visited member other than the root gets an id, emitted or not, and no other object does: the registered objects afterwards are exactly those before plus the visited members, so the root stays unregistered if it was; existing ids are kept and fresh ones are new |
| `PrefabChildren.GetPrefabChildrenIsSnapshot` | NitroxClient/GameLogic/Items.cs:203-224 | the threaded walk yields exactly the reference snapshot: group by group in key order, the metadata-bearing members of each group in walk order, numbered from 0, with their ids from the final registry |
| `PrefabChildren.GetPrefabChildrenOfClass` | NitroxClient/GameLogic/Items.cs:207-222 | the records of any one class id are exactly that group's metadata-bearing members, numbered 0..k-1 in walk order |
| `PrefabChildren.GetPrefabChildrenOnlyDescendants` | NitroxClient/GameLogic/Items.cs:204-219 | every record is a PrefabChildEntity with metadata, parented to the given id, carrying the id of a strict descendant; the root's own id never appears |
| `PrefabChildren.GetPrefabChildrenIdempotent` | NitroxClient/GameLogic/Items.cs:211 | walking the same hierarchy again with the registry the walk left gives the same records and creates no ids |
| `PrefabChildren.EmitGroupIndexed` | NitroxClient/GameLogic/Items.cs:207-222 | one group's inner loop emits its metadata-bearing members at consecutive indices from the start value, skipping the others without consuming an index |
| `PrefabChildren.ChildSnapshotStable` | NitroxClient/GameLogic/Items.cs:219 | a snapshot depends only on the ids of the visited members, so ids created later for other objects do not change it |
| `Items.Dropped` | NitroxClient/GameLogic/Items.cs:96-159 | remote control is removed first and the object always gets an id; a missing PrefabIdentifier raises and nothing is sent; otherwise at most one additive spawn is sent, carrying level 0, the class id, the object's id, the given tech type (or the crafted one when none is given), the metadata and the children snapshot |
| `Items.DroppedVariant` | NitroxClient/GameLogic/Items.cs:115-153 | the variant sent: a GlobalRootEntity (local transform, spawned by server) for a global-root object with no parent, or for a pickupable whose water park has an id, parented to the park; else an OxygenPipeEntity or nothing for a pipe, with its UIDs left alone when nothing is sent; else a WorldEntity (world transform, not spawned by server, no parent) |
| `Items.DroppedPipe` | NitroxClient/GameLogic/Items.cs:123-148 | a pipe is sent exactly when its ghost parent connection and that connection's root both resolve to objects with ids; then its UIDs are rewritten to those ids before the send, and the entity carries them and the attach point; otherwise nothing more happens |
| `Items.Prepare` | NitroxClient/GameLogic/Items.cs:108-113 | the object's id and its children snapshot under that id, taken before any variant is chosen |
| `Items.Placed` | NitroxClient/GameLogic/Items.cs:164-196 | remote control is removed first and the object gets an id; a missing PrefabIdentifier raises; otherwise exactly one additive spawn, spawned by server: a GlobalRootEntity with world transform for a global-root object; else a GlobalRootEntity with local transform, parented to the sub, when the live player is in a sub with an id; else a PlacedWorldEntity with world transform |
| `Items.ConvertToInventoryItemEntity` | NitroxClient/GameLogic/Items.cs:247-259 | the id is created before anything else, so it exists even when conversion fails; conversion succeeds exactly when the object has both a PrefabIdentifier and a Pickupable; the entity carries the id, class id, pickupable tech type, metadata and parent |
| `Items.ConvertToInventoryItemEntityChildren` | NitroxClient/GameLogic/Items.cs:253-256 | the inventory entity's children are the children snapshot of the object under the entity's id, followed by the entities the battery helper adds for the object |
| `Items.ConvertToInventoryEntityUntracked` | NitroxClient/GameLogic/Items.cs:230-245 | on success the object is marked as spawned, stripped of remote control and no longer broadcast, in that order; on failure none of these happens |
| `Items.PickedUp` | NitroxClient/GameLogic/Items.cs:55-81 | nothing escapes; the marker is set to the object first and cleared last, whether or not conversion fails; a PickupItem is sent exactly when conversion succeeds, and the entity it carries is the one `ConvertToInventoryItemEntity` builds for the object under the container (class id, tech type, metadata, children and id) |
| `Items.PickedUpPackets` | NitroxClient/GameLogic/Items.cs:69-71 | a pickup adds exactly one packet, the PickupItem, when the object converts, and none otherwise |
| `Items.PickupTracePackets` | NitroxClient/GameLogic/Items.cs:57-80 | of the effects a successful pickup performs, only the PickupItem send is a packet |
| `Items.PickedUpByPlayer` | NitroxClient/GameLogic/Items.cs:40-53 | a player without an id makes the call do nothing at all; otherwise the call is exactly the pickup into the player's id, so any packet sent is parented to the player |
| `Items.Planted` | NitroxClient/GameLogic/Items.cs:83-91 | the conversion failure is not caught and escapes with nothing sent; either way the registry only grows and the object has an id; otherwise exactly one additive spawn, of the entity `ConvertToInventoryItemEntity` builds for the object under the planter, carrying the object's id |
| `Items.InstallModule` | NitroxClient/GameLogic/Items.cs:302-311 | for one occupied slot: the class id is required before anything else, then the item's id, metadata and children make its InstalledModuleEntity under the equipment |
| `Items.ModuleStep` | NitroxClient/GameLogic/Items.cs:300-313 | one loop iteration: an empty slot leaves the records and the registry as they were; a throw happens only at an occupied slot whose item has no class id, with the registry unchanged, and that slot is the first unidentified occupied one; otherwise the slot's record is added |
| `Items.GetEquipmentModuleEntities` | NitroxClient/GameLogic/Items.cs:297-315 | the call returns exactly when every occupied slot's item has a class id; then there is one record per occupied slot, in slot order, each the slot's module record; when it throws, it does so at the first occupied slot whose item has no class id, and the items of the earlier occupied slots all have ids |
| `Items.OccupiedPrefix` | NitroxClient/GameLogic/Items.cs:300-303 | the occupied slots seen so far are a prefix of all occupied slots, so records appended per slot line up with the slots |
| `EntityDestroyedProcessor.CategoryOf` | NitroxClient/Communication/Packets/Processors/EntityDestroyedProcessor.cs:34-49 | the teardown is chosen by the first component present in the order Vehicle, SubRoot, Pickupable, and a default covers everything else |
| `EntityDestroyedProcessor.CleanupWithin` | NitroxClient/Communication/Packets/Processors/EntityDestroyedProcessor.cs:34-49 | each teardown performs only its own category's actions and never opens or releases the suppression scope |
| `EntityDestroyedProcessor.Process` | NitroxClient/Communication/Packets/Processors/EntityDestroyedProcessor.cs:21-51 | the entity is always forgotten first; a missing object is only marked for deletion, with no suppression scope and no exception; a found object's teardown runs between opening and releasing the scope, and the release happens whether the teardown completes or throws; the processor throws exactly when a teardown call does; the teardown uses only its category's actions and leaves every other object untouched |
| `EntityDestroyedProcessor.SuppressedOnce` | NitroxClient/Communication/Packets/Processors/EntityDestroyedProcessor.cs:31-50 | the suppression scope is opened once and released once per found object, also when the teardown throws |
| `EntityDestroyedProcessor.InterruptedTrace` | NitroxClient/Communication/Packets/Processors/EntityDestroyedProcessor.cs:31-50 | when the teardown call at position k throws, the trace is the removal, the opening of the scope, the teardown's first k calls and the release, and the exception leaves the processor |
| `EntityDestroyedProcessor.DestroyVehicleEjects` | NitroxClient/Communication/Packets/Processors/EntityDestroyedProcessor.cs:55-64 | a local pilot's pilot mode is ended and a graceful exit is tried first; the forced exit and unparenting happen exactly when the graceful exit fails |
| `EntityDestroyedProcessor.DestroyVehicleResets` | NitroxClient/Communication/Packets/Processors/EntityDestroyedProcessor.cs:66-69 | right after the ejection, every remote player identifier under the vehicle is reset, in order, inactive ones included |
| `EntityDestroyedProcessor.DestroyVehicleWrecks` | NitroxClient/Communication/Packets/Processors/EntityDestroyedProcessor.cs:71-81 | a live vehicle is destroyed as the last action, right after its destruction effect when it has one; a vehicle whose object is already gone gets neither |
| `EntityDestroyedProcessor.Resets` | NitroxClient/Communication/Packets/Processors/EntityDestroyedProcessor.cs:66-69 | one reset per identifier, in order, whatever its active state |
| `EntityDestroyedProcessor.SubRootTrace` | NitroxClient/Communication/Packets/Processors/EntityDestroyedProcessor.cs:84-98 | when nothing throws, a subroot with positive health gets oldHPPercent 0, health 0, the damage notification and the kill, in that order, then the damage call; afterwards its health is not positive and oldHPPercent lies in [0, 0.25); one without positive health gets only the damage call and is unchanged |
| `EntityDestroyedProcessor.CleanupDamagedOnce` | NitroxClient/Communication/Packets/Processors/EntityDestroyedProcessor.cs:84-98 | the damage handler is called only by the subroot teardown, once, with the sentinel damage type, as its last call: a teardown cut short never reaches it |
| `EntityDestroyedProcessor.SubRootDamagedOnce` | NitroxClient/Communication/Packets/Processors/EntityDestroyedProcessor.cs:12-97 | over the whole packet, `OnTakeDamage` is called exactly once, with damage type 100, for a subroot whatever its health unless an earlier teardown call throws, and never for anything else or for a missing object |
| `EntityDestroyedProcessor.PickupableTrace` | NitroxClient/Communication/Packets/Processors/EntityDestroyedProcessor.cs:100-108 | when nothing throws, a pickupable's `OnDestroy` runs right before its destroy is requested, and nothing else happens inside the scope |
| `EntityDestroyedProcessor.DefaultTrace` | NitroxClient/Communication/Packets/Processors/EntityDestroyedProcessor.cs:46-49 | when nothing throws, an object with none of the three components is handed to `Entities.DestroyObject` and nothing else happens inside the scope |
| `EntityDestroyedProcessor.CleanupFollowsTrace` | NitroxClient/Communication/Packets/Processors/EntityDestroyedProcessor.cs:84-98 | the state the first n calls of a teardown leave is what those calls do to the object, applied one after another |
| `EntityDestroyedProcessor.ProcessFollowsTrace` | NitroxClient/Communication/Packets/Processors/EntityDestroyedProcessor.cs:21-51 | the found object's new state is what the whole trace does to it, whether the teardown completes or throws |

## Left out

- Logging (`Log.*` calls) and the boolean a send returns: they affect nothing the client keeps.
- The TechType-mismatch warning in `PickedUp` (Items.cs:64-67): it only logs.
- `WaterParkCreature.ManagedUpdate` in `Dropped`: it refreshes the creature's maturity and breeding time before the metadata is extracted. Its effect on that metadata is folded into the opaque `metadata` field, which stands for the value extracted after the update.
- `BatteryChildEntityHelper.TryPopulateInstalledBattery` in `ConvertToInventoryItemEntity`: its code is not part of this model. What it appends is an opaque list fixed for each object, and any ids it may create are not modelled.
- Metadata extraction: an object's metadata is an opaque optional value, fixed for the object.
- Transforms: only which conversion an entity carries (local or world) is recorded, not positions. The attach point of a pipe is an opaque value.
- Items.Placed: the case where the placed object is already dead (`AliveOrNull` null), which falls to a PlacedWorldEntity, is not modelled. The object is taken to be alive, as it has just been given an id.
- `IsInventoryPickingUp`: a flag no modelled operation reads or writes.
- `Entities.RemoveEntity`, `MarkForDeletion`, `MarkAsSpawned`, `DestroyObject`, `EntityPositionBroadcaster`, `PacketSuppressor` and Unity's deferred `Object.Destroy`: modelled only at their call sites, as actions or effects. Their internals are not part of this model.
- EntityDestroyedProcessor.Process: a teardown call that throws is counted as not performed, so any partial effect it has before throwing is not modelled, and the exception's type is not modelled. The game code behind those calls is not part of this model. The throw position may also fall on the two field assignments of the subroot teardown (`oldHPPercent` and health set to 0), which cannot throw in the code once health has been read. So the model admits a subroot left with `oldHPPercent` 0 and positive health, which the code cannot reach.
- Floating-point health: health and `oldHPPercent` are reals; only the sign test and the assignments of 0 matter.
- The ordering of `equipment.equipment` (a dictionary) is taken to be the order of the given slot list.
- The exosuit claw-arm `TryUse` patch: a hook that broadcasts claw use, outside the core.

Two behaviours of the code worth noting:

- The destroy processor forgets the entity (`RemoveEntity`) before it looks up the local object. So this happens whether or not the object is found.
- In `Dropped`, an oxygen pipe whose parent or root connection has no id sends nothing. The earlier steps still take effect: remote control is removed, and the pipe and its notable children are given ids.
