/** `Items.GetPrefabChildren`: the notable descendants of an object, as PrefabChildEntity records.

  The walk collects every PrefabIdentifier in the object's hierarchy, drops
  the one on the object itself, and groups the rest by class id (groups in
  the order their class id is first met, members in walk order). Each member
  gets an id, created if missing, whether or not it is emitted; only members
  with extractable metadata are emitted, numbered 0, 1, ... within their group.

  The source threads the identity registry through the walk; `Reference`
  describes the same output without the threading, given the final registry.
 */
module PrefabChildren {
  import opened Entities
  import opened IdRegistry
  import opened Scene

  /** A PrefabIdentifier component: its class id and the object it sits on. */
  datatype Prefab = Prefab(classId: string, obj: GameObject)

  /** The PrefabIdentifiers among `xs`, except those on the object `root`. */
  function PrefabsIn(xs: seq<GameObject>, root: Handle): (ps: seq<Prefab>)
    ensures forall p | p in ps :: p.obj in xs && p.obj.handle != root && p.obj.classId == Some(p.classId)
  {
    if |xs| == 0 then []
    else
      var head := if xs[0].classId.Some? && xs[0].handle != root then [Prefab(xs[0].classId.value, xs[0])] else [];
      head + PrefabsIn(xs[1..], root)
  }

  /** The PrefabIdentifiers the walk visits below `o`. */
  function Prefabs(o: GameObject): seq<Prefab> {
    PrefabsIn(Flatten(o), o.handle)
  }

  /** The distinct class ids of `ps`, in the order each is first met (the keys of a GroupBy). */
  function ClassOrder(ps: seq<Prefab>): (cs: seq<string>)
    ensures Distinct(cs)
    ensures forall p | p in ps :: p.classId in cs
    ensures forall c | c in cs :: exists p | p in ps :: p.classId == c
    decreases |ps|
  {
    if |ps| == 0 then []
    else
      var init := ps[..|ps| - 1];
      var last := ps[|ps| - 1];
      var cs := ClassOrder(init);
      assert forall p | p in ps :: p in init || p == last;
      if last.classId in cs then cs else cs + [last.classId]
  }

  /** Every member of class `b` in `ps` comes after some member of class `a`. */
  ghost predicate MetBefore(ps: seq<Prefab>, a: string, b: string) {
    forall k | 0 <= k < |ps| && ps[k].classId == b :: exists k' | 0 <= k' < k :: ps[k'].classId == a
  }

  /** Class ids listed earlier in `cs` are met earlier in `ps`. */
  ghost predicate FirstSeenOrder(ps: seq<Prefab>, cs: seq<string>) {
    forall i, j | 0 <= i < j < |cs| :: MetBefore(ps, cs[i], cs[j])
  }

  lemma MetBeforeExtend(ps: seq<Prefab>, a: string, b: string)
    requires |ps| > 0 && MetBefore(ps[..|ps| - 1], a, b)
    requires ps[|ps| - 1].classId == b ==> exists k' | 0 <= k' < |ps| - 1 :: ps[k'].classId == a
    ensures MetBefore(ps, a, b)
  {
    var init := ps[..|ps| - 1];
    forall k | 0 <= k < |ps| && ps[k].classId == b
      ensures exists k' | 0 <= k' < k :: ps[k'].classId == a
    {
      if k < |init| {
        assert init[k] == ps[k];
        var k' :| 0 <= k' < k && init[k'].classId == a;
        assert ps[k'] == init[k'];
      }
    }
  }

  /** A class met somewhere in `ps` is met at some index. */
  lemma MetAt(ps: seq<Prefab>, c: string) returns (k: nat)
    requires exists p | p in ps :: p.classId == c
    ensures k < |ps| && ps[k].classId == c
  {
    var p :| p in ps && p.classId == c;
    k :| 0 <= k < |ps| && ps[k] == p;
  }

  /** The groups come in the order their class ids are first met: of two class ids, the one
      listed first is met before any member of the other. */
  lemma {:induction false} ClassOrderFirstSeen(ps: seq<Prefab>)
    ensures FirstSeenOrder(ps, ClassOrder(ps))
    decreases |ps|
  {
    if |ps| > 0 {
      var init := ps[..|ps| - 1];
      var last := ps[|ps| - 1];
      var cs0 := ClassOrder(init);
      var cs := ClassOrder(ps);
      ClassOrderFirstSeen(init);
      assert FirstSeenOrder(init, cs0);
      assert cs == if last.classId in cs0 then cs0 else cs0 + [last.classId];
      forall i, j | 0 <= i < j < |cs|
        ensures MetBefore(ps, cs[i], cs[j])
      {
        assert cs[i] == cs0[i] && cs0[i] in cs0;
        var k0 := MetAt(init, cs[i]);
        assert ps[k0] == init[k0];
        if j < |cs0| {
          assert cs[j] == cs0[j] && cs0[j] in cs0;
          assert MetBefore(init, cs0[i], cs0[j]);
          if last.classId == cs[j] {
            var kj := MetAt(init, cs[j]);
            var k' :| 0 <= k' < kj && init[k'].classId == cs[i];
            assert ps[k'] == init[k'];
          }
          MetBeforeExtend(ps, cs[i], cs[j]);
        } else {
          assert cs[j] == last.classId && cs[j] !in cs0;
          assert MetBefore(init, cs[i], cs[j]) by {
            forall k | 0 <= k < |init|
              ensures init[k].classId != cs[j]
            {
              assert init[k] in init;
            }
          }
          MetBeforeExtend(ps, cs[i], cs[j]);
        }
      }
    }
  }

  /** The members of one GroupBy group: those of class `c`, in walk order. */
  function Group(ps: seq<Prefab>, c: string): (g: seq<Prefab>)
    ensures forall p | p in g :: p in ps && p.classId == c
    ensures forall p | p in ps && p.classId == c :: p in g
  {
    if |ps| == 0 then []
    else (if ps[0].classId == c then [ps[0]] else []) + Group(ps[1..], c)
  }

  /** The members whose metadata can be extracted, in order. */
  function WithMetadata(ps: seq<Prefab>): (ms: seq<Prefab>)
    ensures forall p | p in ms :: p in ps && p.obj.metadata.Some?
    ensures forall p | p in ps && p.obj.metadata.Some? :: p in ms
    ensures |ms| <= |ps|
  {
    if |ps| == 0 then []
    else (if ps[0].obj.metadata.Some? then [ps[0]] else []) + WithMetadata(ps[1..])
  }

  /** The tech type recorded for a child: its TechTag's, else `TechType.None`. */
  function TechOf(o: GameObject): TechType {
    o.techTag.GetOr(TechTypeNone)
  }

  /** The record for member `p` at position `index` of its group. */
  function Child(p: Prefab, index: nat, parentId: NitroxId, ids: map<Handle, NitroxId>): Entity
    requires p.obj.handle in ids
  {
    PrefabChildEntity(ids[p.obj.handle], p.classId, TechOf(p.obj), index, p.obj.metadata, Some(parentId))
  }

  ghost predicate HasIds(ps: seq<Prefab>, ids: map<Handle, NitroxId>) {
    forall p | p in ps :: p.obj.handle in ids
  }

  /** The records of one group from position `start` on: its j-th metadata-bearing member gets index `start + j`. */
  function Indexed(ms: seq<Prefab>, start: nat, parentId: NitroxId, ids: map<Handle, NitroxId>): (es: seq<Entity>)
    requires HasIds(ms, ids)
    ensures |es| == |ms|
    ensures forall j | 0 <= j < |ms| :: es[j] == Child(ms[j], start + j, parentId, ids)
    decreases |ms|
  {
    if |ms| == 0 then []
    else [Child(ms[0], start, parentId, ids)] + Indexed(ms[1..], start + 1, parentId, ids)
  }

  /** Reference output: for each class id in `cs`, the records of its group, groups in turn. */
  function Reference(cs: seq<string>, ps: seq<Prefab>, parentId: NitroxId, ids: map<Handle, NitroxId>): seq<Entity>
    requires forall p | p in ps && p.classId in cs :: p.obj.handle in ids
  {
    if |cs| == 0 then []
    else Indexed(WithMetadata(Group(ps, cs[0])), 0, parentId, ids) + Reference(cs[1..], ps, parentId, ids)
  }

  /** The children `Items.GetPrefabChildren` returns for `o` once `ids` holds an id for every visited member. */
  function ChildSnapshot(o: GameObject, parentId: NitroxId, ids: map<Handle, NitroxId>): seq<Entity>
    requires HasIds(Prefabs(o), ids)
  {
    Reference(ClassOrder(Prefabs(o)), Prefabs(o), parentId, ids)
  }

  datatype Emitted = Emitted(children: seq<Entity>, reg: Registry)

  /** The objects the members of `ps` sit on. */
  ghost function Handles(ps: seq<Prefab>): set<Handle> {
    set p | p in ps :: p.obj.handle
  }

  /** The objects the members of the groups `cs` sit on. */
  ghost function GroupHandles(ps: seq<Prefab>, cs: seq<string>): set<Handle> {
    set p | p in ps && p.classId in cs :: p.obj.handle
  }

  lemma HandlesCons(g: seq<Prefab>)
    requires |g| > 0
    ensures Handles(g) == {g[0].obj.handle} + Handles(g[1..])
  {
    forall h | h in Handles(g) ensures h in {g[0].obj.handle} + Handles(g[1..]) {
      var p :| p in g && p.obj.handle == h;
      if p != g[0] {
        var k :| 0 <= k < |g| && g[k] == p;
        assert g[1..][k - 1] == p;
      }
    }
    assert g[0] in g;
    forall h | h in Handles(g[1..]) ensures h in Handles(g) {
      var p :| p in g[1..] && p.obj.handle == h;
      assert p in g;
    }
  }

  /** The members of the first group, then those of the other groups. */
  lemma GroupHandlesCons(ps: seq<Prefab>, cs: seq<string>)
    requires |cs| > 0
    ensures GroupHandles(ps, cs) == Handles(Group(ps, cs[0])) + GroupHandles(ps, cs[1..])
  {
    var g := Group(ps, cs[0]);
    forall h | h in GroupHandles(ps, cs) ensures h in Handles(g) + GroupHandles(ps, cs[1..]) {
      var p :| p in ps && p.classId in cs && p.obj.handle == h;
      if p.classId == cs[0] {
        assert p in g;
      } else {
        assert p.classId in cs[1..];
      }
    }
    forall h | h in Handles(g) ensures h in GroupHandles(ps, cs) {
      var p :| p in g && p.obj.handle == h;
      assert p in ps && p.classId in cs;
    }
    forall h | h in GroupHandles(ps, cs[1..]) ensures h in GroupHandles(ps, cs) {
      var p :| p in ps && p.classId in cs[1..] && p.obj.handle == h;
      assert p.classId in cs;
    }
  }

  /** The inner loop of the walk over one group, starting at position `index`. */
  function EmitGroup(g: seq<Prefab>, index: nat, parentId: NitroxId, reg: Registry): (r: Emitted)
    ensures Extends(reg, r.reg)
    ensures Valid(reg) ==> Valid(r.reg)
    ensures HasIds(g, r.reg.ids)
    ensures HasIds(g, reg.ids) ==> r.reg == reg
    ensures r.reg.ids.Keys == reg.ids.Keys + Handles(g)
    decreases |g|
  {
    if |g| == 0 then Emitted([], reg)
    else
      HandlesCons(g);
      var p := g[0];
      var a := GetIdOrGenerateNew(reg, p.obj.handle);
      if p.obj.metadata.Some? then
        var rest := EmitGroup(g[1..], index + 1, parentId, a.reg);
        var e := PrefabChildEntity(a.id, p.classId, TechOf(p.obj), index, p.obj.metadata, Some(parentId));
        Emitted([e] + rest.children, rest.reg)
      else
        EmitGroup(g[1..], index, parentId, a.reg)
  }

  /** The outer loop of the walk, over the groups whose class ids are `cs`. */
  function EmitGroups(cs: seq<string>, ps: seq<Prefab>, parentId: NitroxId, reg: Registry): (r: Emitted)
    ensures Extends(reg, r.reg)
    ensures Valid(reg) ==> Valid(r.reg)
    ensures forall p | p in ps && p.classId in cs :: p.obj.handle in r.reg.ids
    ensures (forall p | p in ps && p.classId in cs :: p.obj.handle in reg.ids) ==> r.reg == reg
    ensures r.reg.ids.Keys == reg.ids.Keys + GroupHandles(ps, cs)
    decreases |cs|
  {
    if |cs| == 0 then Emitted([], reg)
    else
      GroupHandlesCons(ps, cs);
      var first := EmitGroup(Group(ps, cs[0]), 0, parentId, reg);
      var rest := EmitGroups(cs[1..], ps, parentId, first.reg);
      Emitted(first.children + rest.children, rest.reg)
  }

  /** `Items.GetPrefabChildren(o, parentId, …)`, with the registry before and after. */
  function GetPrefabChildren(o: GameObject, parentId: NitroxId, reg: Registry): (r: Emitted)
    ensures Extends(reg, r.reg)
    ensures Valid(reg) ==> Valid(r.reg)
    ensures HasIds(Prefabs(o), r.reg.ids)
    ensures r.reg.ids.Keys == reg.ids.Keys + Handles(Prefabs(o))
    ensures o.handle !in reg.ids ==> o.handle !in r.reg.ids
  {
    var ps := Prefabs(o);
    assert GroupHandles(ps, ClassOrder(ps)) == Handles(ps);
    EmitGroups(ClassOrder(ps), ps, parentId, reg)
  }

  /** One group's records: the j-th metadata-bearing member is emitted at position `index + j`,
      with the id it holds in the registry after the walk. */
  lemma {:induction false} EmitGroupIndexed(g: seq<Prefab>, index: nat, parentId: NitroxId, reg: Registry)
    ensures var r := EmitGroup(g, index, parentId, reg);
            && HasIds(WithMetadata(g), r.reg.ids)
            && r.children == Indexed(WithMetadata(g), index, parentId, r.reg.ids)
    decreases |g|
  {
    if |g| > 0 {
      var p := g[0];
      var a := GetIdOrGenerateNew(reg, p.obj.handle);
      if p.obj.metadata.Some? {
        var rest := EmitGroup(g[1..], index + 1, parentId, a.reg);
        EmitGroupIndexed(g[1..], index + 1, parentId, a.reg);
        assert WithMetadata(g) == [p] + WithMetadata(g[1..]);
      } else {
        EmitGroupIndexed(g[1..], index, parentId, a.reg);
      }
    }
  }

  /** Indexed records depend only on the ids of the members, so a registry that
      keeps those ids yields the same records. */
  lemma IndexedStable(ms: seq<Prefab>, parentId: NitroxId, ids: map<Handle, NitroxId>, ids': map<Handle, NitroxId>)
    requires HasIds(ms, ids)
    requires forall h | h in ids :: h in ids' && ids'[h] == ids[h]
    ensures HasIds(ms, ids')
    ensures Indexed(ms, 0, parentId, ids) == Indexed(ms, 0, parentId, ids')
  {
  }

  /** Reference records depend only on the ids of the members of the listed groups. */
  lemma {:induction false} ReferenceStable(cs: seq<string>, ps: seq<Prefab>, parentId: NitroxId,
                                           ids: map<Handle, NitroxId>, ids': map<Handle, NitroxId>)
    requires forall p | p in ps && p.classId in cs :: p.obj.handle in ids
    requires forall h | h in ids :: h in ids' && ids'[h] == ids[h]
    ensures Reference(cs, ps, parentId, ids) == Reference(cs, ps, parentId, ids')
    decreases |cs|
  {
    if |cs| > 0 {
      IndexedStable(WithMetadata(Group(ps, cs[0])), parentId, ids, ids');
      ReferenceStable(cs[1..], ps, parentId, ids, ids');
    }
  }

  /** A children snapshot depends only on the ids of the visited members, so a registry
      that keeps those ids yields the same snapshot. */
  lemma ChildSnapshotStable(o: GameObject, parentId: NitroxId, ids: map<Handle, NitroxId>, ids': map<Handle, NitroxId>)
    requires HasIds(Prefabs(o), ids)
    requires forall h | h in ids :: h in ids' && ids'[h] == ids[h]
    ensures HasIds(Prefabs(o), ids')
    ensures ChildSnapshot(o, parentId, ids) == ChildSnapshot(o, parentId, ids')
  {
    ReferenceStable(ClassOrder(Prefabs(o)), Prefabs(o), parentId, ids, ids');
  }

  /** The walk over the groups `cs` produces the reference records, read off the final registry. */
  lemma {:induction false} EmitGroupsIsReference(cs: seq<string>, ps: seq<Prefab>, parentId: NitroxId, reg: Registry)
    ensures var r := EmitGroups(cs, ps, parentId, reg);
            r.children == Reference(cs, ps, parentId, r.reg.ids)
    decreases |cs|
  {
    if |cs| > 0 {
      var g := Group(ps, cs[0]);
      var first := EmitGroup(g, 0, parentId, reg);
      var rest := EmitGroups(cs[1..], ps, parentId, first.reg);
      EmitGroupIndexed(g, 0, parentId, reg);
      EmitGroupsIsReference(cs[1..], ps, parentId, first.reg);
      var ms := WithMetadata(g);
      IndexedStable(ms, parentId, first.reg.ids, rest.reg.ids);
    }
  }

  /** `GetPrefabChildren` returns exactly the reference snapshot of `o`'s children. */
  lemma GetPrefabChildrenIsSnapshot(o: GameObject, parentId: NitroxId, reg: Registry)
    ensures var r := GetPrefabChildren(o, parentId, reg);
            r.children == ChildSnapshot(o, parentId, r.reg.ids)
  {
    var ps := Prefabs(o);
    EmitGroupsIsReference(ClassOrder(ps), ps, parentId, reg);
  }

  /** Snapshotting an unchanged hierarchy again, with the registry the first walk left,
      yields the same children and creates no further ids. */
  lemma GetPrefabChildrenIdempotent(o: GameObject, parentId: NitroxId, reg: Registry)
    ensures var r := GetPrefabChildren(o, parentId, reg);
            GetPrefabChildren(o, parentId, r.reg) == r
  {
    var r := GetPrefabChildren(o, parentId, reg);
    var r2 := GetPrefabChildren(o, parentId, r.reg);
    GetPrefabChildrenIsSnapshot(o, parentId, reg);
    GetPrefabChildrenIsSnapshot(o, parentId, r.reg);
    assert r2.reg == r.reg;
  }

  /** The records of class `c`, in order. */
  function OfClass(es: seq<Entity>, c: string): (r: seq<Entity>)
    ensures forall e | e in r :: e in es && e.classId == c
  {
    if |es| == 0 then []
    else (if es[0].classId == c then [es[0]] else []) + OfClass(es[1..], c)
  }

  lemma {:induction false} OfClassConcat(a: seq<Entity>, b: seq<Entity>, c: string)
    ensures OfClass(a + b, c) == OfClass(a, c) + OfClass(b, c)
    decreases |a|
  {
    if |a| > 0 {
      assert (a + b)[1..] == a[1..] + b;
      OfClassConcat(a[1..], b, c);
    } else {
      assert a + b == b;
    }
  }

  lemma {:induction false} OfClassAll(es: seq<Entity>, c: string)
    requires forall e | e in es :: e.classId == c
    ensures OfClass(es, c) == es
    decreases |es|
  {
    if |es| > 0 {
      OfClassAll(es[1..], c);
    }
  }

  lemma {:induction false} OfClassNone(es: seq<Entity>, c: string)
    requires forall e | e in es :: e.classId != c
    ensures OfClass(es, c) == []
    decreases |es|
  {
    if |es| > 0 {
      OfClassNone(es[1..], c);
    }
  }

  ghost predicate Distinct(cs: seq<string>) {
    forall i, j | 0 <= i < j < |cs| :: cs[i] != cs[j]
  }

  lemma DistinctTail(cs: seq<string>)
    requires |cs| > 0 && Distinct(cs)
    ensures Distinct(cs[1..]) && cs[0] !in cs[1..]
  {
    forall i, j | 0 <= i < j < |cs[1..]| ensures cs[1..][i] != cs[1..][j] {
      assert cs[1..][i] == cs[i + 1] && cs[1..][j] == cs[j + 1];
    }
    forall k | 0 <= k < |cs[1..]| ensures cs[1..][k] != cs[0] {
      assert cs[1..][k] == cs[k + 1];
    }
  }

  /** The records of one group all carry the group's class id. */
  lemma IndexedClass(ps: seq<Prefab>, c: string, parentId: NitroxId, ids: map<Handle, NitroxId>)
    requires HasIds(WithMetadata(Group(ps, c)), ids)
    ensures forall e | e in Indexed(WithMetadata(Group(ps, c)), 0, parentId, ids) :: e.classId == c
  {
    var ms := WithMetadata(Group(ps, c));
    forall e | e in Indexed(ms, 0, parentId, ids) ensures e.classId == c {
      var j :| 0 <= j < |ms| && Indexed(ms, 0, parentId, ids)[j] == e;
      assert ms[j] in ms;
    }
  }

  /** Filtering the reference output of distinct groups by class `c` leaves exactly the group of `c`. */
  lemma {:induction false} OfClassReference(cs: seq<string>, ps: seq<Prefab>, parentId: NitroxId,
                                            ids: map<Handle, NitroxId>, c: string)
    requires forall p | p in ps && p.classId in cs :: p.obj.handle in ids
    requires Distinct(cs)
    ensures c in cs ==> HasIds(WithMetadata(Group(ps, c)), ids)
    ensures c in cs ==> OfClass(Reference(cs, ps, parentId, ids), c) == Indexed(WithMetadata(Group(ps, c)), 0, parentId, ids)
    ensures c !in cs ==> OfClass(Reference(cs, ps, parentId, ids), c) == []
    decreases |cs|
  {
    if |cs| > 0 {
      var block := Indexed(WithMetadata(Group(ps, cs[0])), 0, parentId, ids);
      var rest := Reference(cs[1..], ps, parentId, ids);
      assert Reference(cs, ps, parentId, ids) == block + rest;
      DistinctTail(cs);
      OfClassReference(cs[1..], ps, parentId, ids, c);
      OfClassConcat(block, rest, c);
      IndexedClass(ps, cs[0], parentId, ids);
      if cs[0] == c {
        OfClassAll(block, c);
      } else {
        OfClassNone(block, c);
        assert c in cs <==> c in cs[1..];
      }
    }
  }

  /** Within each class id, the emitted children are exactly the metadata-bearing members of that
      group, in walk order, numbered 0, 1, ..., k-1, each with its id and parented to `parentId`. */
  lemma GetPrefabChildrenOfClass(o: GameObject, parentId: NitroxId, reg: Registry, c: string)
    ensures var r := GetPrefabChildren(o, parentId, reg);
            var ms := WithMetadata(Group(Prefabs(o), c));
            && HasIds(ms, r.reg.ids)
            && OfClass(r.children, c) == Indexed(ms, 0, parentId, r.reg.ids)
  {
    var r := GetPrefabChildren(o, parentId, reg);
    var ps := Prefabs(o);
    GetPrefabChildrenIsSnapshot(o, parentId, reg);
    OfClassReference(ClassOrder(ps), ps, parentId, r.reg.ids, c);
    if c !in ClassOrder(ps) {
      GroupAbsent(ps, c);
      assert WithMetadata(Group(ps, c)) == [];
    }
  }

  /** A class id no member carries has an empty group. */
  lemma {:induction false} GroupAbsent(ps: seq<Prefab>, c: string)
    requires forall p | p in ps :: p.classId != c
    ensures Group(ps, c) == []
    decreases |ps|
  {
    if |ps| > 0 {
      assert ps[0] in ps;
      GroupAbsent(ps[1..], c);
    }
  }

  /** Every record of the reference output is the record of a metadata-bearing member. */
  lemma {:induction false} ReferenceMembers(cs: seq<string>, ps: seq<Prefab>, parentId: NitroxId, ids: map<Handle, NitroxId>)
    requires forall p | p in ps && p.classId in cs :: p.obj.handle in ids
    ensures forall e | e in Reference(cs, ps, parentId, ids) ::
              exists p, i: nat | p in ps :: p.obj.metadata.Some? && p.obj.handle in ids && e == Child(p, i, parentId, ids)
    decreases |cs|
  {
    if |cs| > 0 {
      var ms := WithMetadata(Group(ps, cs[0]));
      var block := Indexed(ms, 0, parentId, ids);
      ReferenceMembers(cs[1..], ps, parentId, ids);
      forall e | e in block
        ensures exists p, i: nat | p in ps :: p.obj.metadata.Some? && p.obj.handle in ids && e == Child(p, i, parentId, ids)
      {
        var j :| 0 <= j < |block| && block[j] == e;
        assert ms[j] in ms;
        assert e == Child(ms[j], j, parentId, ids);
      }
    }
  }

  /** Only strict descendants with metadata are emitted, all parented to `parentId`; in particular
      the walked object itself is never among the children. */
  lemma GetPrefabChildrenOnlyDescendants(o: GameObject, parentId: NitroxId, reg: Registry)
    requires Valid(reg)
    ensures var r := GetPrefabChildren(o, parentId, reg);
            forall e | e in r.children ::
              && e.PrefabChildEntity?
              && e.parentId == Some(parentId)
              && e.metadata.Some?
              && (exists p | p in Prefabs(o) :: p.obj.handle != o.handle && p.obj.handle in r.reg.ids && e.id == r.reg.ids[p.obj.handle])
              && (o.handle in reg.ids ==> e.id != reg.ids[o.handle])
  {
    var r := GetPrefabChildren(o, parentId, reg);
    var ps := Prefabs(o);
    GetPrefabChildrenIsSnapshot(o, parentId, reg);
    ReferenceMembers(ClassOrder(ps), ps, parentId, r.reg.ids);
    forall e | e in r.children
      ensures o.handle in reg.ids ==> e.id != reg.ids[o.handle]
    {
      var p, i: nat :| p in ps && p.obj.metadata.Some? && p.obj.handle in r.reg.ids && e == Child(p, i, parentId, r.reg.ids);
      assert p.obj.handle != o.handle;
    }
  }
}
