/** The records the entity-synchronisation client builds and transmits.

  Every replicated object is described by an `Entity`: a tagged variant
  with one constructor per entity class of the network model. Fields that
  several variants share have the same name and type in each of them, so
  `e.id`, `e.classId` or `e.parentId` can be read without a case split.
 */
module Entities {

  /** The conventional Some/None datatype, standing for a nullable reference. */
  datatype Option<+T> = None | Some(value: T) {

    /** The value held in Some, or `default` when None. */
    function GetOr(default: T): T {
      match this
      case Some(v) => v
      case None => default
    }
  }

  /** The identity of a live local object (a game object or one of its components). */
  type Handle = nat

  /** A stable network identifier; the source uses a random GUID, only equality matters here. */
  datatype NitroxId = NitroxId(serial: nat)

  /** A game tech type; code 0 is `TechType.None`. */
  datatype TechType = TechType(code: nat)

  const TechTypeNone: TechType := TechType(0)

  /** The opaque payload a metadata extractor produces for an object. */
  datatype Metadata = Metadata(payload: nat)

  /** Which conversion of the object's transform a snapshot carries
      (`ToLocalDto` relative to the parent, or `ToWorldDto`). */
  datatype TransformDto = LocalTransform | WorldTransform

  /** A position value (the attach point of an oxygen pipe); only its identity matters. */
  datatype Point = Point(tag: nat)

  /** The transmitted entity record. */
  datatype Entity =
    | WorldEntity(transform: TransformDto, level: int, classId: string, spawnedByServer: bool,
                  id: NitroxId, techType: TechType, metadata: Option<Metadata>,
                  parentId: Option<NitroxId>, children: seq<Entity>)
    | GlobalRootEntity(transform: TransformDto, level: int, classId: string, spawnedByServer: bool,
                       id: NitroxId, techType: TechType, metadata: Option<Metadata>,
                       parentId: Option<NitroxId>, children: seq<Entity>)
    | PlacedWorldEntity(transform: TransformDto, level: int, classId: string, spawnedByServer: bool,
                        id: NitroxId, techType: TechType, metadata: Option<Metadata>,
                        parentId: Option<NitroxId>, children: seq<Entity>)
    | OxygenPipeEntity(transform: TransformDto, level: int, classId: string, spawnedByServer: bool,
                       id: NitroxId, techType: TechType, metadata: Option<Metadata>,
                       parentId: Option<NitroxId>, children: seq<Entity>,
                       rootPipeId: NitroxId, parentPipeId: NitroxId, parentPosition: Point)
    | InventoryItemEntity(id: NitroxId, classId: string, techType: TechType, metadata: Option<Metadata>,
                          parentId: Option<NitroxId>, children: seq<Entity>)
    | PrefabChildEntity(id: NitroxId, classId: string, techType: TechType, componentIndex: nat,
                        metadata: Option<Metadata>, parentId: Option<NitroxId>)
    | InstalledModuleEntity(slot: string, classId: string, id: NitroxId, techType: TechType,
                            metadata: Option<Metadata>, parentId: Option<NitroxId>, children: seq<Entity>)
  {
    /** The variants that carry a transform and are spawned in the world. */
    predicate IsWorldEntity() {
      WorldEntity? || GlobalRootEntity? || PlacedWorldEntity? || OxygenPipeEntity?
    }
  }

  /** Outbound packets of the client. */
  datatype Packet =
    | EntitySpawnedByClient(entity: Entity, additive: bool)
    | PickupItem(item: Entity)
}
