/** The entity-component table of ECS.h. Every concrete entity type and
    every component type has an id; a table with one cell per (entity id,
    component id) pair holds the distance from the entity's RootTy part
    to the component, or `invalidOffset` when the entity has no such
    component. Addresses are integers and address 0 is the null pointer. */
module Ecs {

  import Arith
  import Meta
  import RttiLinear
  import RttiHierarchy
  import RelPtrs

  type TypeKey = nat

  /** One component of a concrete entity type: its type (Meta.Comp, whose
      id is the component's type key) and the distance in bytes from the
      RootTy subobject to the component inside the object. */
  datatype Field = Field(comp: Meta.Comp, distance: int)

  /** `EntitySpec<ParentTy, ParentBaseTy, CmpTys...>`: the concrete type
      ParentTy, the type ParentBaseTy it is declared under, and CmpTys in
      order. */
  datatype EntitySpec = EntitySpec(key: TypeKey, parent: TypeKey, fields: seq<Field>)

  /** The CmpTys list as a Meta type list. */
  function Components(fs: seq<Field>): (l: seq<Meta.Comp>)
    ensures |l| == |fs|
    ensures forall k :: 0 <= k < |fs| ==> l[k] == fs[k].comp
  {
    seq(|fs|, k requires 0 <= k < |fs| => fs[k].comp)
  }

  /** `std::get<Cmp>` on the tuple is only well-formed when no component
      type occurs twice. */
  predicate DistinctComponents(fs: seq<Field>)
  {
    forall i, j :: 0 <= i < j < |fs| ==> fs[i].comp.id != fs[j].comp.id
  }

  // The table

  /** `ent.getInt() * lineLength + comp.getInt()`. */
  function CellIndex(ent: nat, comp: nat, lineLength: nat): nat
  {
    ent * lineLength + comp
  }

  /** `entityMax * componentMax`, the number of cells init allocates. */
  function TableSize(entityMax: nat, componentMax: nat): nat
  {
    entityMax * componentMax
  }

  /** `Table.assign(n, invalidOffset)`. */
  function Blank(n: nat, invalid: nat): (t: seq<nat>)
    ensures |t| == n
    ensures forall x :: 0 <= x < n ==> t[x] == invalid
  {
    seq(n, _ => invalid)
  }

  /** The implicit conversion of a byte distance to the unsigned OffsetTy
      with `offsetBound` values: reduction modulo offsetBound. */
  function Truncate(d: int, offsetBound: nat): (r: nat)
    requires offsetBound > 0
    ensures r < offsetBound
    ensures 0 <= d < offsetBound ==> r == d
  {
    d % offsetBound
  }

  /** One assignment `Table[index] = value`. */
  datatype CellWrite = CellWrite(index: nat, value: nat)

  /** An assignment to an index inside the table; the model leaves the
      table alone for one outside it, which the source does not define. */
  function Put(t: seq<nat>, w: CellWrite): seq<nat>
  {
    if w.index < |t| then t[w.index := w.value] else t
  }

  /** The table after the assignments ws, in order. */
  function Apply(t: seq<nat>, ws: seq<CellWrite>): (r: seq<nat>)
    ensures |r| == |t|
    decreases |ws|
  {
    if ws == [] then t else Put(Apply(t, ws[..|ws| - 1]), ws[|ws| - 1])
  }

  /** The id `componentRTTI::get<Cmp>()` returns for a registered Cmp. */
  function ComponentId(ids: map<TypeKey, nat>, c: TypeKey): nat
  {
    if c in ids then ids[c] else 0
  }

  /** The assignments `initTable` makes for an entity with id `eid`: one
      per component, left to right, of the truncated distance. */
  function Row(eid: nat, lineLength: nat, ids: map<TypeKey, nat>, offsetBound: nat,
               fs: seq<Field>): (ws: seq<CellWrite>)
    requires offsetBound > 0
    ensures |ws| == |fs|
    ensures forall k :: 0 <= k < |fs| ==>
      ws[k] == CellWrite(CellIndex(eid, ComponentId(ids, fs[k].comp.id), lineLength),
                         Truncate(fs[k].distance, offsetBound))
  {
    seq(|fs|, k requires 0 <= k < |fs| =>
      CellWrite(CellIndex(eid, ComponentId(ids, fs[k].comp.id), lineLength),
                Truncate(fs[k].distance, offsetBound)))
  }

  /** Applying a concatenation applies its parts one after the other. */
  lemma {:induction false} ApplyAppend(t: seq<nat>, a: seq<CellWrite>, b: seq<CellWrite>)
    ensures Apply(t, a + b) == Apply(Apply(t, a), b)
    decreases |b|
  {
    if b == [] {
      assert a + b == a;
    } else {
      assert (a + b)[..|a + b| - 1] == a + b[..|b| - 1];
      assert (a + b)[|a + b| - 1] == b[|b| - 1];
      ApplyAppend(t, a, b[..|b| - 1]);
    }
  }

  /** When every assignment to cell x stores v, the cell holds v if any
      assignment reached it and its first value otherwise. */
  lemma {:induction false} ApplyCell(t: seq<nat>, ws: seq<CellWrite>, x: nat, v: nat)
    requires x < |t|
    requires forall k :: 0 <= k < |ws| && ws[k].index == x ==> ws[k].value == v
    ensures Apply(t, ws)[x] == if exists k :: 0 <= k < |ws| && ws[k].index == x then v else t[x]
    decreases |ws|
  {
    if ws != [] {
      var init := ws[..|ws| - 1];
      assert forall k :: 0 <= k < |init| ==> init[k] == ws[k];
      ApplyCell(t, init, x, v);
      if ws[|ws| - 1].index != x {
        if exists k :: 0 <= k < |ws| && ws[k].index == x {
          var k :| 0 <= k < |ws| && ws[k].index == x;
          assert init[k].index == x;
        }
      }
    }
  }

  // The stride

  /** a <= b scales. */
  lemma MulMono(a: nat, b: nat, k: nat)
    requires a <= b
    ensures k * a <= k * b
  {
  }

  /** With at least as many component ids as entity ids, every
      (entity, component) cell lies inside the table of E * C cells. */
  lemma CellInBounds(entities: nat, components: nat, e: nat, c: nat)
    requires entities <= components && e < entities && c < components
    ensures CellIndex(e, c, entities) < entities * components
  {
    MulMono(entities, components, e);
    MulMono(e + 1, entities, components);
    assert e * entities + c < e * components + components == (e + 1) * components;
  }

  /** With fewer component ids than entity ids (and at least one), the
      last entity's last component falls outside the table: the stride is
      the entity count where the table size needs the component count. */
  lemma CellOutOfBounds(entities: nat, components: nat)
    requires 1 <= components < entities
    ensures CellIndex(entities - 1, components - 1, entities) >= entities * components
  {
    var d := entities - components;
    assert entities * components == entities * entities - entities * d;
    MulMono(1, entities - 1, d);
    assert (entities - 1) * d >= 1;
    assert CellIndex(entities - 1, components - 1, entities)
        == entities * entities - entities + components - 1;
  }

  /** Component ids below the stride give distinct cells to distinct
      (entity, component) pairs. */
  lemma CellsDistinct(lineLength: nat, e1: nat, c1: nat, e2: nat, c2: nat)
    requires c1 < lineLength && c2 < lineLength
    requires CellIndex(e1, c1, lineLength) == CellIndex(e2, c2, lineLength)
    ensures e1 == e2 && c1 == c2
  {
    var x := CellIndex(e1, c1, lineLength);
    Arith.ModUnique(x, e1, c1, lineLength);
    Arith.ModUnique(x, e2, c2, lineLength);
  }

  /** A component id equal to the stride shares its cell with component 0
      of the next entity. */
  lemma CellsAlias(lineLength: nat, e: nat)
    ensures CellIndex(e, lineLength, lineLength) == CellIndex(e + 1, 0, lineLength)
  {
  }

  /** The keys of the types in o. */
  function KeySet(o: seq<EntitySpec>): set<TypeKey>
  {
    if o == [] then {} else KeySet(o[..|o| - 1]) + {o[|o| - 1].key}
  }

  /** Every type of o contributes its key. */
  lemma {:induction false} KeySetHas(o: seq<EntitySpec>, j: nat)
    requires j < |o|
    ensures o[j].key in KeySet(o)
    decreases |o|
  {
    if j < |o| - 1 {
      var init := o[..|o| - 1];
      assert init[j] == o[j];
      KeySetHas(init, j);
    }
  }

  /** A key of KeySet(o) is the key of a type of o. */
  lemma {:induction false} KeySetWitness(o: seq<EntitySpec>, k: TypeKey)
    requires k in KeySet(o)
    ensures exists j :: 0 <= j < |o| && o[j].key == k
    decreases |o|
  {
    var init := o[..|o| - 1];
    if k != o[|o| - 1].key {
      KeySetWitness(init, k);
      var j :| 0 <= j < |init| && init[j].key == k;
      assert o[j] == init[j];
    }
  }

  /** The types of o are declared in specs, each occurs once, and their
      components have ids. */
  predicate OrderOk(specs: map<TypeKey, EntitySpec>, o: seq<EntitySpec>, ids: map<TypeKey, nat>)
  {
    (forall j :: 0 <= j < |o| ==> o[j].key in specs && o[j] == specs[o[j].key]) &&
    (forall i, j :: 0 <= i < j < |o| ==> o[i].key != o[j].key) &&
    (forall j, k :: 0 <= j < |o| && 0 <= k < |o[j].fields| ==> o[j].fields[k].comp.id in ids)
  }

  /** Appending a declared type that is not in o yet, whose components
      have ids, keeps OrderOk and adds its key. */
  lemma OrderOkSnoc(specs: map<TypeKey, EntitySpec>, o: seq<EntitySpec>,
                    ids: map<TypeKey, nat>, s: EntitySpec)
    requires OrderOk(specs, o, ids) && s.key in specs && specs[s.key] == s
    requires s.key !in KeySet(o)
    requires forall k :: 0 <= k < |s.fields| ==> s.fields[k].comp.id in ids
    ensures OrderOk(specs, o + [s], ids)
    ensures KeySet(o + [s]) == KeySet(o) + {s.key}
  {
    forall j | 0 <= j < |o|
      ensures o[j].key != s.key
    {
      KeySetHas(o, j);
    }
    assert (o + [s])[..|o|] == o;
  }

  /** What initTable's stores depend on: the entity ids (`id.min` of
      each type), the stride, the component ids and the number of values
      of OffsetTy. */
  datatype Coords = Coords(entityIds: map<TypeKey, nat>, lineLength: nat,
                           componentIds: map<TypeKey, nat>, offsetBound: nat)

  /** The assignments initTable makes for the type s. */
  function RowFor(c: Coords, s: EntitySpec): seq<CellWrite>
    requires c.offsetBound > 0
  {
    Row(RttiHierarchy.IdIn(c.entityIds, s.key), c.lineLength, c.componentIds, c.offsetBound, s.fields)
  }

  /** All the assignments made for the types of o, in order. */
  function Rows(c: Coords, o: seq<EntitySpec>): seq<CellWrite>
    requires c.offsetBound > 0
  {
    if o == [] then [] else Rows(c, o[..|o| - 1]) + RowFor(c, o[|o| - 1])
  }

  /** The table is the blank table after the rows of the types of o. */
  predicate TableOk(c: Coords, invalid: nat, t: seq<nat>, o: seq<EntitySpec>)
    requires c.offsetBound > 0
  {
    t == Apply(Blank(|t|, invalid), Rows(c, o))
  }

  /** Filling the row of s after the types of o leaves the blank table
      after the rows of o + [s]. */
  lemma TableSnoc(c: Coords, invalid: nat, t0: seq<nat>, t1: seq<nat>,
                  o: seq<EntitySpec>, s: EntitySpec)
    requires c.offsetBound > 0
    requires TableOk(c, invalid, t0, o) && t1 == Apply(t0, RowFor(c, s))
    ensures TableOk(c, invalid, t1, o + [s])
  {
    assert (o + [s])[..|o|] == o;
    ApplyAppend(Blank(|t0|, invalid), Rows(c, o), RowFor(c, s));
  }

  /** Every assignment of ws lands inside a table of n cells. */
  predicate InTable(ws: seq<CellWrite>, n: nat)
  {
    forall k :: 0 <= k < |ws| ==> ws[k].index < n
  }

  /** Every assignment in the rows of o is one of initTable's for some
      component of some type of o. */
  lemma {:induction false} RowsMember(c: Coords, o: seq<EntitySpec>, k: nat)
    requires c.offsetBound > 0 && k < |Rows(c, o)|
    ensures exists j, i :: 0 <= j < |o| && 0 <= i < |o[j].fields| && Rows(c, o)[k] == RowFor(c, o[j])[i]
    decreases |o|
  {
    var init := o[..|o| - 1];
    var r := Rows(c, init);
    if k < |r| {
      RowsMember(c, init, k);
      var j, i :| 0 <= j < |init| && 0 <= i < |init[j].fields| && r[k] == RowFor(c, init[j])[i];
      assert o[j] == init[j];
    } else {
      var j := |o| - 1;
      assert Rows(c, o)[k] == RowFor(c, o[j])[k - |r|];
    }
  }

  /** Conversely, each of initTable's assignments for a type of o occurs
      in the rows of o. */
  lemma {:induction false} RowsContains(c: Coords, o: seq<EntitySpec>, j: nat, i: nat)
    requires c.offsetBound > 0 && j < |o| && i < |o[j].fields|
    ensures exists k :: 0 <= k < |Rows(c, o)| && Rows(c, o)[k] == RowFor(c, o[j])[i]
    decreases |o|
  {
    var init := o[..|o| - 1];
    var r := Rows(c, init);
    if j == |o| - 1 {
      assert Rows(c, o)[|r| + i] == RowFor(c, o[j])[i];
    } else {
      assert init[j] == o[j];
      RowsContains(c, init, j, i);
      var k :| 0 <= k < |r| && r[k] == RowFor(c, init[j])[i];
      assert Rows(c, o)[k] == r[k];
    }
  }

  /** The cell of type o[m] and component comp after the rows of o, when
      distinct types have distinct entity ids, distinct components have
      distinct ids, and every component id is below the stride: the
      truncated distance of comp if o[m] has it, invalid otherwise. */
  lemma CellOfFilled(c: Coords, invalid: nat, t: seq<nat>, specs: map<TypeKey, EntitySpec>,
                     o: seq<EntitySpec>, m: nat, comp: TypeKey)
    requires c.offsetBound > 0 && TableOk(c, invalid, t, o)
    requires OrderOk(specs, o, c.componentIds) && m < |o| && DistinctComponents(o[m].fields)
    requires forall i, j :: 0 <= i < |o| && 0 <= j < |o| && o[i].key != o[j].key ==>
      RttiHierarchy.IdIn(c.entityIds, o[i].key) != RttiHierarchy.IdIn(c.entityIds, o[j].key)
    requires forall a, b :: a in c.componentIds && b in c.componentIds && a != b ==>
      c.componentIds[a] != c.componentIds[b]
    requires forall a :: a in c.componentIds ==> c.componentIds[a] < c.lineLength
    requires comp in c.componentIds
    requires CellIndex(RttiHierarchy.IdIn(c.entityIds, o[m].key), c.componentIds[comp], c.lineLength) < |t|
    ensures var fs := o[m].fields;
      t[CellIndex(RttiHierarchy.IdIn(c.entityIds, o[m].key), c.componentIds[comp], c.lineLength)] ==
        if Meta.Has(Components(fs), comp)
        then Truncate(fs[Meta.FirstIndex(Components(fs), comp)].distance, c.offsetBound)
        else invalid
  {
    var s := o[m];
    var fs := s.fields;
    var l := Components(fs);
    var ws := Rows(c, o);
    var ent := RttiHierarchy.IdIn(c.entityIds, s.key);
    var x := CellIndex(ent, c.componentIds[comp], c.lineLength);
    var has := Meta.Has(l, comp);
    var v := if has then Truncate(fs[Meta.FirstIndex(l, comp)].distance, c.offsetBound) else invalid;
    // An assignment to x is the one for comp in o[m].
    forall k | 0 <= k < |ws| && ws[k].index == x
      ensures has && ws[k].value == v
    {
      RowsMember(c, o, k);
      var j, i :| 0 <= j < |o| && 0 <= i < |o[j].fields| && ws[k] == RowFor(c, o[j])[i];
      var f := o[j].fields[i];
      assert f.comp.id in c.componentIds;
      var ej := RttiHierarchy.IdIn(c.entityIds, o[j].key);
      assert ws[k].index == CellIndex(ej, c.componentIds[f.comp.id], c.lineLength);
      CellsDistinct(c.lineLength, ej, c.componentIds[f.comp.id], ent, c.componentIds[comp]);
      assert o[j].key == s.key;
      assert j == m;
      assert f.comp.id == comp;
      assert l[i].id == comp;
      assert Meta.FirstIndex(l, comp) == i;
    }
    if has {
      var i := Meta.FirstIndex(l, comp);
      RowsContains(c, o, m, i);
      var k :| 0 <= k < |ws| && ws[k] == RowFor(c, o[m])[i];
      assert ws[k].index == x;
    }
    ApplyCell(Blank(|t|, invalid), ws, x, v);
  }

  /** The stride at work: entity ids 1 and 2 under a root numbered 0, so
      the stride is 3, and four components with ids 0 to 3. Type A (id 1)
      has only the component with id 3, at distance 8; type B (id 2) has
      none. Within the 12-cell table, A's store lands on B's cell for the
      component with id 0, so a B handle finds that component at offset 8. */
  lemma StrideAliasExample()
    ensures var c := Coords(map[1 := 1, 2 := 2], 3, map[10 := 0, 11 := 1, 12 := 2, 13 := 3], 256);
      var a := EntitySpec(1, 0, [Field(Meta.Comp(13, 4, 4), 8)]);
      var t := Apply(Blank(TableSize(3, 4), 255), Rows(c, [a]));
      CellIndex(2, 0, 3) < |t| && t[CellIndex(2, 0, 3)] == 8
  {
  }

  /** A component laid out before the RootTy part (a negative distance d,
      as when the EntitySpec base precedes RootTy in the base list) is
      stored as d plus the number of OffsetTy values. Unless d is -1 that
      cell is not invalidOffset, so the base `ecs_has` holds, and the base
      `ecs_get` lands offsetBound bytes past the concrete `ecs_get`. With a
      uint16_t OffsetTy, d = -8 is stored as 65528. */
  lemma {:induction false} NegativeDistanceDisagrees(addr: int, d: int, offsetBound: nat)
    requires offsetBound > 1 && 0 < d + offsetBound && d < 0
    ensures Truncate(d, offsetBound) == d + offsetBound
    ensures d != -1 ==> Truncate(d, offsetBound) != offsetBound - 1
    ensures addr + Truncate(d, offsetBound) == (addr + d) + offsetBound
    ensures Truncate(-8, 0x1_0000) == 65528
  {
    Arith.ModUnique(d, -1, d + offsetBound, offsetBound);
    Arith.ModUnique(-8, -1, 65528, 0x1_0000);
  }

  /** A constructed entity: its concrete type, the address of its RootTy
      subobject (`getRoot()->getAddr()`), and the `ID` its constructor
      stamped into the EntityBase. */
  class Entity {
    const kind: TypeKey
    const addr: int
    const id: RttiHierarchy.HierarchyIdValue

    constructor (kind: TypeKey, addr: int, id: RttiHierarchy.HierarchyIdValue)
      ensures this.kind == kind && this.addr == addr && this.id == id
    {
      this.kind := kind;
      this.addr := addr;
      this.id := id;
    }
  }

  /** `ecs_impl<RootTy, OffsetTy, EntityKindTy>`: the entity hierarchy
      (`entityRTTI`), the component category (`componentRTTI`), `Table`,
      `lineLength` and the per-type `static initTable` flags of
      fillTableOnFirstUse. `offsetBound` is the number of values of
      OffsetTy. */
  class Registry {
    const entities: RttiHierarchy.HierarchyId
    const components: RttiLinear.LinearId
    const offsetBound: nat
    /** `invalidOffset`, the largest OffsetTy. */
    const invalidOffset: nat
    /** The concrete entity types that have been declared, by key. */
    var specs: map<TypeKey, EntitySpec>
    var table: seq<nat>
    var lineLength: nat
    /** The types whose `static initTable` has run. */
    var filled: set<TypeKey>
    /** Those types, in the order their tables were filled. */
    ghost var order: seq<EntitySpec>

    /** The coordinates of the current numbering. */
    ghost function Here(): Coords
      reads this`lineLength, entities`lo, components`ids
    {
      Coords(entities.lo, lineLength, components.ids, offsetBound)
    }

    /** Every declared type is stored under its key and names each
        component once. */
    ghost predicate Catalogued()
      reads this`specs
    {
      forall k :: k in specs ==> specs[k].key == k && DistinctComponents(specs[k].fields)
    }

    /** Once init has sized the table, both categories are frozen and the
        table has E * C cells with stride E. */
    ghost predicate Sized()
      reads this`table, this`lineLength, entities`frozen, entities`hi,
            components`frozen, components`count
    {
      table != [] ==>
        entities.frozen && components.frozen &&
        lineLength == entities.Max(entities.root) &&
        |table| == TableSize(lineLength, components.count)
    }

    /** The filled types are declared, each filled once, and their
        components are registered; the table is the blank table after
        every initTable assignment so far. */
    ghost predicate Filled()
      reads this`specs, this`order, this`filled, this`table, this`lineLength,
            entities`lo, components`ids
      requires offsetBound > 0
    {
      OrderOk(specs, order, components.ids) && filled == KeySet(order) &&
      TableOk(Here(), invalidOffset, table, order)
    }

    /** Both categories are valid, invalidOffset is the largest OffsetTy,
        and nothing is filled before init has sized the table. */
    ghost predicate Valid()
      reads this, entities, components
    {
      entities.Valid() && components.Valid() &&
      invalidOffset + 1 == offsetBound &&
      Catalogued() && Sized() && (table == [] ==> order == []) && Filled()
    }

    /** The statics before main: an empty table over the two categories. */
    constructor (entities: RttiHierarchy.HierarchyId, components: RttiLinear.LinearId,
                 offsetBound: nat)
      requires entities.Valid() && components.Valid() && offsetBound > 0
      ensures Valid()
      ensures this.entities == entities && this.components == components
      ensures this.offsetBound == offsetBound && invalidOffset == offsetBound - 1
      ensures specs == map[] && table == [] && filled == {}
    {
      this.entities := entities;
      this.components := components;
      this.offsetBound := offsetBound;
      invalidOffset := offsetBound - 1;
      specs := map[];
      table := [];
      lineLength := 0;
      filled := {};
      order := [];
    }

    /** The `Inherits<ParentTy, ParentBaseTy>` base of an EntitySpec: the
        concrete type's node is declared under ParentBaseTy. The hierarchy
        stays well formed exactly when that declaration can be attached. */
    method DeclareEntityType(s: EntitySpec)
      requires Valid() && !entities.frozen && entities.wellFormed && s.key !in specs
      requires DistinctComponents(s.fields)
      modifies this`specs, entities`child, entities`next, entities`tops,
               entities`declared, entities`wellFormed
      ensures Valid() && specs == old(specs)[s.key := s]
      ensures entities.declared == old(entities.declared) + {(s.key, s.parent)}
      ensures (s.key, s.parent) in old(entities.declared) ==>
                entities.child == old(entities.child) && entities.next == old(entities.next) &&
                entities.tops == old(entities.tops) && entities.wellFormed
      ensures (s.key, s.parent) !in old(entities.declared) ==>
                RttiHierarchy.Links(entities.child, entities.next) ==
                RttiHierarchy.Store(old(RttiHierarchy.Links(entities.child, entities.next)),
                  RttiHierarchy.EndSlot(s.parent, RttiHierarchy.KidsOf(old(entities.tops), s.parent)), s.key)
      ensures (s.key, s.parent) !in old(entities.declared) ==>
                (entities.wellFormed <==>
                 RttiHierarchy.Attachable(old(entities.tops), s.key, s.parent))
      ensures !entities.wellFormed ==> entities.tops == old(entities.tops)
      ensures (s.key, s.parent) !in old(entities.declared) && entities.wellFormed ==>
                entities.tops == RttiHierarchy.Declared(old(entities.tops), s.key, s.parent) &&
                RttiHierarchy.KidsOf(entities.tops, s.parent) ==
                  RttiHierarchy.KidsOf(old(entities.tops), s.parent) +
                  [RttiHierarchy.Detached(old(entities.tops), s.key)] &&
                RttiHierarchy.Keys(entities.tops) == RttiHierarchy.Keys(old(entities.tops)) + {s.key, s.parent}
      ensures (s.key, s.parent) !in old(entities.declared) && entities.wellFormed &&
              s.parent in RttiHierarchy.Keys(old(entities.Hierarchy())) ==>
                RttiHierarchy.Keys(entities.Hierarchy()) ==
                RttiHierarchy.Keys(old(entities.Hierarchy())) +
                RttiHierarchy.Keys([RttiHierarchy.Detached(old(entities.tops), s.key)])
      ensures (s.key, s.parent) !in old(entities.declared) && entities.wellFormed &&
              s.parent !in RttiHierarchy.Keys(old(entities.Hierarchy())) ==>
                entities.Hierarchy() == old(entities.Hierarchy())
    {
      entities.DeclareChild(s.key, s.parent);
      specs := specs[s.key := s];
    }

    /** The static `init<Cmp>` of a component type taking its id. */
    method RegisterComponent(c: TypeKey)
      requires Valid() && !components.frozen && c !in components.ids
      modifies components
      ensures Valid() && !components.frozen
      ensures components.ids == old(components.ids)[c := old(components.count)]
      ensures components.count == Arith.Inc(old(components.count), components.bound)
      ensures components.registered == old(components.registered) + 1
    {
      components.Register(c);
    }

    /** `init()`: a no-op once the table is non-empty; otherwise number the
        hierarchy, size the table entityMax * componentMax with every cell
        invalid, and set the stride to entityMax. Numbering twice is an
        assertion failure of the hierarchy, so a second call while the
        table is still empty (no component registered) is excluded. */
    method Init()
      requires Valid() && (table != [] || (!entities.frozen && entities.wellFormed))
      modifies this`table, this`lineLength, entities`lo, entities`hi, entities`frozen,
               components`frozen
      ensures Valid() && entities.frozen && components.frozen
      ensures old(table) != [] ==>
        table == old(table) && lineLength == old(lineLength) &&
        entities.lo == old(entities.lo) && entities.hi == old(entities.hi)
      ensures old(table) == [] ==>
        lineLength == entities.Max(entities.root) &&
        table == Blank(TableSize(entities.Max(entities.root), components.count), invalidOffset)
      ensures old(table) == [] && entities.NoWrap() ==>
        lineLength == entities.start + RttiHierarchy.Size(entities.Hierarchy())
    {
      if table != [] {
        return;
      }
      Allocate();
    }

    /** The work of init on an empty table. */
    method Allocate()
      requires Valid() && table == [] && !entities.frozen && entities.wellFormed
      modifies this`table, this`lineLength, entities`lo, entities`hi, entities`frozen,
               components`frozen
      ensures Valid() && entities.frozen && components.frozen
      ensures lineLength == entities.Max(entities.root)
      ensures table == Blank(TableSize(entities.Max(entities.root), components.count), invalidOffset)
      ensures entities.NoWrap() ==>
        lineLength == entities.start + RttiHierarchy.Size(entities.Hierarchy())
    {
      entities.Init();
      var cm := components.MaxId();
      // entityRTTI::maxID(), which reads the root's id.max once frozen
      var em := entities.Max(entities.root);
      table := Blank(TableSize(em, cm.value), invalidOffset);
      lineLength := em;
    }

    /** `getOffset(ent, comp)`: the cell of the pair; an index outside the
        table is undefined behaviour in the source. */
    function Offset(ent: nat, comp: nat): (r: nat)
      reads this
      requires CellIndex(ent, comp, lineLength) < |table|
      ensures r in table
    {
      table[CellIndex(ent, comp, lineLength)]
    }

    /** The fold of initTable over CmpTys: for each component, left to
        right, store its truncated distance at (ent, get<Cmp>()). */
    method WriteRow(ent: nat, fs: seq<Field>)
      requires offsetBound > 0
      requires forall k :: 0 <= k < |fs| ==> fs[k].comp.id in components.ids
      requires InTable(Row(ent, lineLength, components.ids, offsetBound, fs), |table|)
      modifies this`table
      ensures table == Apply(old(table), Row(ent, lineLength, components.ids, offsetBound, fs))
    {
      ghost var ws := Row(ent, lineLength, components.ids, offsetBound, fs);
      var i := 0;
      while i < |fs|
        invariant 0 <= i <= |fs| && |table| == |old(table)|
        invariant table == Apply(old(table), ws[..i])
      {
        // componentRTTI::get<Cmp>(): on a frozen category, a read of the id
        var comp := components.ids[fs[i].comp.id];
        assert ws[..i + 1][..i] == ws[..i];
        table := table[CellIndex(ent, comp, lineLength) :=
                        Truncate(fs[i].distance, offsetBound)];
        i := i + 1;
      }
      assert ws[..|fs|] == ws;
    }

    /** `fillTableOnFirstUse()`: the first construction of a concrete type
        runs its `static initTable` for the type's id (getEntityID());
        later constructions change nothing. Every component type of an
        EntitySpec has an id, since using `get<Cmp>` instantiates its
        registration. */
    method FillTableOnFirstUse(kind: TypeKey)
      requires Valid() && table != [] && kind in specs
      requires forall k :: 0 <= k < |specs[kind].fields| ==>
        specs[kind].fields[k].comp.id in components.ids
      requires InTable(RowFor(Here(), specs[kind]), |table|)
      modifies this`table, this`filled, this`order
      ensures Valid() && filled == old(filled) + {kind}
      ensures kind in old(filled) ==> table == old(table)
      ensures kind !in old(filled) ==> table == Apply(old(table), RowFor(Here(), specs[kind]))
    {
      if kind in filled {
        return;
      }
      InitTable(kind);
    }

    /** The `static initTable` of a type that has not run yet: store the
        type's row and record the type as filled. */
    method InitTable(kind: TypeKey)
      requires Valid() && table != [] && kind in specs && kind !in filled
      requires forall k :: 0 <= k < |specs[kind].fields| ==>
        specs[kind].fields[k].comp.id in components.ids
      requires InTable(RowFor(Here(), specs[kind]), |table|)
      modifies this`table, this`filled, this`order
      ensures Valid() && filled == old(filled) + {kind}
      ensures table == Apply(old(table), RowFor(Here(), specs[kind]))
    {
      var s := specs[kind];
      var ent := entities.Get(kind);
      ghost var c, t0 := Here(), table;
      WriteRow(ent.value, s.fields);
      TableSnoc(c, invalidOffset, t0, table, order, s);
      OrderOkSnoc(specs, order, components.ids, s);
      order := order + [s];
      filled := filled + {kind};
    }

    /** The EntitySpec constructor: fill the table on first use, then stamp
        `ID = get<ParentTy>()` into the new object's EntityBase. */
    method Construct(kind: TypeKey, addr: int) returns (e: Entity)
      requires Valid() && table != [] && kind in specs
      requires forall k :: 0 <= k < |specs[kind].fields| ==>
        specs[kind].fields[k].comp.id in components.ids
      requires InTable(RowFor(Here(), specs[kind]), |table|)
      modifies this`table, this`filled, this`order
      ensures Valid() && fresh(e) && filled == old(filled) + {kind}
      ensures e.kind == kind && e.addr == addr && e.id.value == entities.Min(kind)
      ensures kind in old(filled) ==> table == old(table)
      ensures kind !in old(filled) ==> table == Apply(old(table), RowFor(Here(), specs[kind]))
    {
      FillTableOnFirstUse(kind);
      var id := entities.Get(kind);
      e := new Entity(kind, addr, id);
    }

    // Queries through an EntityBase

    /** `EntityBase::ecs_has<Ty>()`: the entity's cell for Ty is not
        invalidOffset. */
    predicate BaseHas(e: Entity, c: TypeKey)
      reads this, components
      requires c in components.ids
      requires CellIndex(e.id.value, components.ids[c], lineLength) < |table|
    {
      Offset(e.id.value, components.ids[c]) != invalidOffset
    }

    /** `EntityBase::ecs_get<Ty>()`: the entity's address plus the stored
        offset; it asserts ecs_has. */
    function BaseGet(e: Entity, c: TypeKey): (p: int)
      reads this, components
      requires c in components.ids
      requires CellIndex(e.id.value, components.ids[c], lineLength) < |table|
      requires BaseHas(e, c)
      ensures p - e.addr in table && p - e.addr != invalidOffset
    {
      e.addr + Offset(e.id.value, components.ids[c])
    }

    /** `EntityBase::ecs_get_or_null<Ty>()`. */
    function BaseGetOrNull(e: Entity, c: TypeKey): (p: int)
      reads this, components
      requires c in components.ids
      requires CellIndex(e.id.value, components.ids[c], lineLength) < |table|
      ensures BaseHas(e, c) ==> p == BaseGet(e, c)
      ensures !BaseHas(e, c) ==> p == RelPtrs.Null
    {
      if BaseHas(e, c) then BaseGet(e, c) else RelPtrs.Null
    }

    // Queries through the concrete type

    /** The static `EntitySpec::ecs_has<Ty>()`: `Layout<CmpTys...>::has`. */
    predicate SpecHas(kind: TypeKey, c: TypeKey)
      reads this
      requires kind in specs
      ensures SpecHas(kind, c) <==>
        exists k :: 0 <= k < |specs[kind].fields| && specs[kind].fields[k].comp.id == c
    {
      Meta.Has(Components(specs[kind].fields), c)
    }

    /** The distance of component c in the concrete type. */
    function Distance(kind: TypeKey, c: TypeKey): int
      reads this
      requires kind in specs && SpecHas(kind, c)
    {
      specs[kind].fields[Meta.FirstIndex(Components(specs[kind].fields), c)].distance
    }

    /** `EntitySpec::ecs_get<Ty>()`: the address of the tuple element,
        which lies Distance bytes past the RootTy subobject. */
    function SpecGet(e: Entity, c: TypeKey): (p: int)
      reads this
      requires e.kind in specs && SpecHas(e.kind, c)
      ensures exists k :: 0 <= k < |specs[e.kind].fields| && specs[e.kind].fields[k].comp.id == c &&
                p == e.addr + specs[e.kind].fields[k].distance
      ensures DistinctComponents(specs[e.kind].fields) ==>
                forall k :: 0 <= k < |specs[e.kind].fields| && specs[e.kind].fields[k].comp.id == c ==>
                  p == e.addr + specs[e.kind].fields[k].distance
    {
      e.addr + Distance(e.kind, c)
    }

    /** `EntitySpec::ecs_get_or_null<Ty>()`. */
    function SpecGetOrNull(e: Entity, c: TypeKey): (p: int)
      reads this
      requires e.kind in specs
      ensures SpecHas(e.kind, c) ==> p == SpecGet(e, c)
      ensures !SpecHas(e.kind, c) ==> p == RelPtrs.Null
    {
      if SpecHas(e.kind, c) then SpecGet(e, c) else RelPtrs.Null
    }

    // What the table promises

    /** The conditions under which rows do not collide: the entity ids of
        BaseTy's hierarchy do not wrap, the component ids do not wrap and
        are all below the stride, and every filled type is in BaseTy's
        hierarchy. */
    ghost predicate Separated()
      reads this, entities, components
      requires Valid()
    {
      entities.NoWrap() &&
      components.start + components.registered <= components.bound &&
      (forall t :: t in components.ids ==> components.ids[t] < lineLength) &&
      (forall j :: 0 <= j < |order| ==> order[j].key in RttiHierarchy.Keys(entities.Hierarchy()))
    }

    /** Distinct filled types have distinct entity ids. */
    lemma FilledIdsDistinct()
      requires Valid() && table != [] && Separated()
      ensures forall i, j :: 0 <= i < |order| && 0 <= j < |order| && order[i].key != order[j].key ==>
        RttiHierarchy.IdIn(entities.lo, order[i].key) != RttiHierarchy.IdIn(entities.lo, order[j].key)
    {
      forall i, j | 0 <= i < |order| && 0 <= j < |order| && order[i].key != order[j].key
        ensures entities.Min(order[i].key) != entities.Min(order[j].key)
      {
        entities.IdsDistinct(order[i].key, order[j].key);
      }
    }

    /** Distinct component types have distinct ids. */
    lemma ComponentIdsDistinct()
      requires components.Valid() && components.start + components.registered <= components.bound
      ensures forall a, b :: a in components.ids && b in components.ids && a != b ==>
        components.ids[a] != components.ids[b]
    {
      forall a, b | a in components.ids && b in components.ids && a != b
        ensures components.ids[a] != components.ids[b]
      {
        components.IdsDistinct(a, b);
      }
    }

    /** The cell of a constructed entity and a registered component holds
        the component's truncated distance if the entity's type has it and
        invalidOffset otherwise, provided rows do not collide. */
    lemma CellOfEntity(e: Entity, c: TypeKey)
      requires Valid() && table != [] && Separated()
      requires e.kind in specs && e.kind in filled && e.id.value == entities.Min(e.kind)
      requires c in components.ids
      requires CellIndex(e.id.value, components.ids[c], lineLength) < |table|
      ensures Offset(e.id.value, components.ids[c]) ==
        if SpecHas(e.kind, c) then Truncate(Distance(e.kind, c), offsetBound) else invalidOffset
    {
      KeySetWitness(order, e.kind);
      var m :| 0 <= m < |order| && order[m].key == e.kind;
      FilledIdsDistinct();
      ComponentIdsDistinct();
      CellOfFilled(Here(), invalidOffset, table, specs, order, m, c);
    }

    /** Through an EntityBase handle, a constructed entity reports exactly
        the components its concrete type declares, at the same addresses
        as the concrete type's own accessors, provided rows do not collide
        and each distance fits below invalidOffset. */
    lemma BaseAgreesWithSpec(e: Entity, c: TypeKey)
      requires Valid() && table != [] && Separated()
      requires e.kind in specs && e.kind in filled && e.id.value == entities.Min(e.kind)
      requires c in components.ids
      requires CellIndex(e.id.value, components.ids[c], lineLength) < |table|
      requires SpecHas(e.kind, c) ==> 0 <= Distance(e.kind, c) < invalidOffset
      ensures BaseHas(e, c) <==> SpecHas(e.kind, c)
      ensures SpecHas(e.kind, c) ==> BaseGet(e, c) == SpecGet(e, c)
      ensures BaseGetOrNull(e, c) == SpecGetOrNull(e, c)
    {
      CellOfEntity(e, c);
    }
  }

  /** Registrations compose: two component types registered in a row
      take ids 0 and 1. */
  method TwoComponents(r: Registry)
    requires r.Valid() && !r.components.frozen && r.components.ids == map[]
    requires r.components.count == 0 && r.components.bound > 2
    modifies r.components
    ensures r.Valid() && !r.components.frozen
    ensures r.components.ids == map[1 := 0, 2 := 1] && r.components.count == 2
  {
    r.RegisterComponent(1);
    r.RegisterComponent(2);
  }

  /** Declarations compose: two entity types declared under BaseTy both get
      their pair recorded, and the hierarchy stays a forest. */
  method TwoEntityTypes(r: Registry)
    requires r.Valid() && !r.entities.frozen && r.entities.wellFormed && r.entities.declared == {}
    requires r.entities.tops == [RttiHierarchy.Tree(r.entities.root, [])] && r.specs == map[]
    requires r.entities.root == 0
    modifies r, r.entities
    ensures r.Valid() && r.entities.declared == {(10, 0), (11, 0)} && r.entities.wellFormed
    ensures RttiHierarchy.KidsOf(r.entities.tops, 0) == [RttiHierarchy.Tree(10, []), RttiHierarchy.Tree(11, [])]
  {
    FirstEntityType(r);
    SecondEntityType(r);
  }

  /** The first declaration of TwoEntityTypes. */
  method FirstEntityType(r: Registry)
    requires r.Valid() && !r.entities.frozen && r.entities.wellFormed && r.entities.declared == {}
    requires r.entities.tops == [RttiHierarchy.Tree(r.entities.root, [])] && r.specs == map[]
    requires r.entities.root == 0
    modifies r, r.entities
    ensures r.Valid() && !r.entities.frozen && r.entities.wellFormed
    ensures r.entities.declared == {(10, 0)} && 11 !in r.specs
    ensures RttiHierarchy.Keys(r.entities.tops) == {0, 10}
    ensures RttiHierarchy.KidsOf(r.entities.tops, 0) == [RttiHierarchy.Tree(10, [])]
  {
    RttiHierarchy.FreshAttachable(r.entities.tops, 10, 0);
    r.DeclareEntityType(EntitySpec(10, 0, []));
  }

  /** The second declaration of TwoEntityTypes. */
  method SecondEntityType(r: Registry)
    requires r.Valid() && !r.entities.frozen && r.entities.wellFormed && r.entities.root == 0
    requires r.entities.declared == {(10, 0)} && 11 !in r.specs
    requires RttiHierarchy.Keys(r.entities.tops) == {0, 10}
    requires RttiHierarchy.KidsOf(r.entities.tops, 0) == [RttiHierarchy.Tree(10, [])]
    modifies r, r.entities
    ensures r.Valid() && r.entities.declared == {(10, 0), (11, 0)} && r.entities.wellFormed
    ensures RttiHierarchy.KidsOf(r.entities.tops, 0) == [RttiHierarchy.Tree(10, []), RttiHierarchy.Tree(11, [])]
  {
    RttiHierarchy.FreshAttachable(r.entities.tops, 11, 0);
    r.DeclareEntityType(EntitySpec(11, 0, []));
  }
}
