/** The client's identity registry: which live object carries which network id.

  `GetIdOrGenerateNew` reuses the id an object already has and otherwise
  attaches a fresh one; `TryGetNitroxId` only looks up. A fresh id is drawn
  from a counter that is above every id in use, standing for the random
  GUIDs of the source: what matters is that a new id differs from all others.
 */
module IdRegistry {
  import opened Entities

  datatype Registry = Registry(ids: map<Handle, NitroxId>, objects: map<NitroxId, Handle>, next: nat)

  /** Every id in use is below the counter and maps back to its object. */
  ghost predicate Valid(r: Registry) {
    forall h | h in r.ids :: r.ids[h].serial < r.next && r.ids[h] in r.objects && r.objects[r.ids[h]] == h
  }

  /** In a valid registry no two objects share an id. */
  lemma ValidInjective(r: Registry, h1: Handle, h2: Handle)
    requires Valid(r) && h1 in r.ids && h2 in r.ids && h1 != h2
    ensures r.ids[h1] != r.ids[h2]
  {
  }

  /** `r'` keeps every id `r` had assigned, and never reuses a counter value. */
  predicate Extends(r: Registry, r': Registry) {
    && r.next <= r'.next
    && forall h | h in r.ids :: h in r'.ids && r'.ids[h] == r.ids[h]
  }

  lemma ExtendsTransitive(r1: Registry, r2: Registry, r3: Registry)
    requires Extends(r1, r2) && Extends(r2, r3)
    ensures Extends(r1, r3)
  {
  }

  datatype Assigned = Assigned(id: NitroxId, reg: Registry)

  /** `NitroxEntity.GetIdOrGenerateNew`: the object's id, created on first need. */
  function GetIdOrGenerateNew(r: Registry, h: Handle): (a: Assigned)
    ensures h in a.reg.ids && a.reg.ids[h] == a.id
    ensures Extends(r, a.reg)
    ensures h in r.ids ==> a.reg == r
    ensures h !in r.ids ==> a.reg.ids.Keys == r.ids.Keys + {h}
    ensures h !in r.ids && Valid(r) ==> forall k | k in r.ids :: r.ids[k] != a.id
    ensures Valid(r) ==> Valid(a.reg)
  {
    if h in r.ids then Assigned(r.ids[h], r)
    else
      var id := NitroxId(r.next);
      Assigned(id, Registry(r.ids[h := id], r.objects[id := h], r.next + 1))
  }

  /** `TryGetNitroxId`: the object's id if it has one; never creates one. */
  function TryGetNitroxId(r: Registry, h: Handle): Option<NitroxId> {
    if h in r.ids then Some(r.ids[h]) else None
  }

  /** Asking twice for an object's id gives the same id and changes nothing the second time. */
  lemma GetIdOrGenerateNewIdempotent(r: Registry, h: Handle)
    ensures var a := GetIdOrGenerateNew(r, h);
            GetIdOrGenerateNew(a.reg, h) == a
  {
  }
}
