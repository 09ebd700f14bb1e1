/** The local object graph, reduced to records.

  A `GameObject` carries the components the synchronisation logic asks
  about, as optional fields or flags, and its transform children in order.
 */
module Scene {
  import opened Entities

  /** `LargeWorldEntity.CellLevel`. */
  datatype CellLevel = Near | Medium | Far | VeryFar | Batch | Global

  datatype GameObject = GameObject(
    handle: Handle,
    classId: Option<string>,        // PrefabIdentifier component, by its class id
    techTag: Option<TechType>,      // TechTag component
    craftTechType: TechType,        // what CraftData.GetTechType reports
    pickupable: Option<TechType>,   // Pickupable component, by its GetTechType()
    cellLevel: Option<CellLevel>,   // LargeWorldEntity component, by its initialCellLevel
    waterPark: bool,                // WaterPark component
    oxygenPipe: bool,               // OxygenPipe component
    metadata: Option<Metadata>,     // what the metadata extractors produce for it
    installedBattery: seq<Entity>,  // what BatteryChildEntityHelper.TryPopulateInstalledBattery adds for it
    children: seq<GameObject>)

  /** The object and all its descendants, depth first, each parent before its
      children: the order in which components are collected from a hierarchy. */
  function Flatten(o: GameObject): (r: seq<GameObject>)
    ensures |r| >= 1 && r[0] == o
    decreases o, 1
  {
    [o] + FlattenAll(o.children)
  }

  function FlattenAll(cs: seq<GameObject>): seq<GameObject>
    decreases cs, 0
  {
    if |cs| == 0 then [] else Flatten(cs[0]) + FlattenAll(cs[1..])
  }

  /** `Items.IsGlobalRootObject`: the object has a LargeWorldEntity whose initial cell level is Global. */
  predicate IsGlobalRootObject(o: GameObject) {
    o.cellLevel == Some(Global)
  }

  /** `p` is the transform parent of `c`. */
  predicate ParentOf(p: GameObject, c: GameObject) {
    c in p.children
  }

  /** `ancestors` are the transform parents of `o`, nearest first: the first is the parent of
      `o`, and each later one is the parent of the one before it. Callers pass the complete
      chain up to the scene root; a shorter prefix also satisfies this predicate. */
  ghost predicate ParentChain(o: GameObject, ancestors: seq<GameObject>) {
    && (|ancestors| > 0 ==> ParentOf(ancestors[0], o))
    && forall i | 0 < i < |ancestors| :: ParentOf(ancestors[i], ancestors[i - 1])
  }

  /** Along the chain `ancestors` of `o`, `g` is the parent of `o`'s parent. */
  ghost predicate GrandparentOf(g: GameObject, o: GameObject, ancestors: seq<GameObject>) {
    ParentChain(o, ancestors) && |ancestors| >= 2 && ancestors[1] == g
  }

  /** `Items.TryGetParentWaterPark`, given the object whose parent is passed in and that
      object's parent chain. A dropped item sits under WaterPark/items_root, so the water
      park is looked for on the parent of the parent. */
  function TryGetParentWaterPark(o: GameObject, ancestors: seq<GameObject>): (w: Option<GameObject>)
    requires ParentChain(o, ancestors)
    ensures w.Some? <==> exists g :: GrandparentOf(g, o, ancestors) && g.waterPark
    ensures w.Some? ==> GrandparentOf(w.value, o, ancestors) && w.value.waterPark
    ensures w.Some? ==> exists p | p in w.value.children :: o in p.children
  {
    if |ancestors| >= 2 && ancestors[1].waterPark then
      assert ParentOf(ancestors[0], o) && ParentOf(ancestors[1], ancestors[0]);
      Some(ancestors[1])
    else None
  }
}
