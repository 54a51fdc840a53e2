# sigta core in Dafny

This project models the integer bookkeeping at the heart of the header-only
C++ library sigta, and proves properties of that model. In the library the
bookkeeping sits behind templates and static initialisation. The model
makes a C++ type an explicit key (`TypeKey = nat`), and it turns each
static initialiser into an explicit method call.

- `arith.dfy` (module `Arith`): the unsigned id type `IDTy`, whose `++`
  wraps at `bound` values, plus quotient and remainder facts.
- `meta.dfy` (module `Meta`): `align_up`; `Layout<...>`'s `has`,
  `getOffset`, `getSize` and `getAlign` over a sequence of
  `(id, size, align)` records; and the type-list combinators `for_all`,
  `for_any`, `for_none`, `un::neg`, `bin::either` and `bin::both` over
  sequences.
- `relptr.dfy` (module `RelPtrs`): `RelPtrTraits` and the class `RelPtr`.
  A RelPtr stores `target - self` in a bounded integer, and the maximum
  of that integer encodes null. Addresses are integers and 0 is null.
- `rtti_linear.dfy` (module `RttiLinear`): `LinearID` as a class. It holds
  the counter, the frozen flag and the id of every registered type.
- `rtti_hierarchy.dfy` (module `RttiHierarchy`): `HierarchyID` as a class.
  It holds the concrete `child`/`next` links of every node and the
  `min`/`max` each node receives. A ghost forest of `Tree` values records
  the shape the links spell out.
  - `buildGraph`'s pointer-chasing loop is `ChainEnd`.
  - `recursiveIDBuilder` is a recursive method. It is proved equal to a
    functional preorder walk, `Walk`.
  - The walk's intervals are proved to nest, to be disjoint between
    siblings and ordered by declaration, and to make `isclassof` exactly
    the descendant relation.
- `ecs.dfy` (module `Ecs`): `ecs_impl` together with its `EntityBase` and
  `EntitySpec`, as the class `Registry`.
  - The table is a `seq<nat>` field. The set of types whose
    `static initTable` has run is a `set` field.
  - The invariant says the table is the blank table after every
    `initTable` store so far, in order.

The ECS table is modelled as written. `init` allocates
`entityMax * componentMax` cells but sets the row stride `lineLength` to
`entityMax`, and a cell is addressed as `ent * lineLength + comp`. The
model keeps exactly this. The consequences are proved as lemmas:

- every cell is in bounds when there are at least as many component ids as
  entity ids (`CellInBounds`);
- with fewer component ids than entity ids, the last cell falls outside
  the table (`CellOutOfBounds`);
- distinct pairs get distinct cells when component ids are below the stride
  (`CellsDistinct`);
- a component id equal to the stride shares a cell with the next entity
  (`CellsAlias`);
- `StrideAliasExample` is a concrete table where one type's store shows up
  as a component of another type.

The main ECS result, `BaseAgreesWithSpec`, assumes rows do not collide
(`Separated`) and that each byte distance lies in `[0, invalidOffset)`. Under
those assumptions an entity queried through its `EntityBase`:
- has exactly the components its concrete type declares;
- finds each one at the address the concrete type's own accessor gives.

## Model

| member | source | states |
|---|---|---|
| Arith.IncIsModular | include/sigta/common/RTTI.h:42 | `internalCount()++` on IDTy is addition of one modulo the number of IDTy values |
| Arith.Inc | include/sigta/common/RTTI.h:42 | `internalCount()++` on IDTy gives a value of IDTy again |
| Arith.AdvanceIsModular | include/sigta/common/RTTI.h:31-46 | n registrations advance the counter by n modulo the number of IDTy values |
| Arith.AdvanceNoWrap | include/sigta/common/RTTI.h:31-46 | without wrap-around, n registrations add exactly n to the counter |
| Meta.AlignUp | include/sigta/common/Meta.h:80-83 | `align_up(v, a)` is a multiple of `a` with `v <= r < v + a` |
| Meta.AlignUpLeast | include/sigta/common/Meta.h:80-83 | `align_up(v, a)` is the least multiple of `a` that is not below `v` |
| Meta.AlignUpOfAligned | include/sigta/common/Meta.h:80-83 | an already aligned value is returned unchanged |
| Meta.AlignUpIdempotent | include/sigta/common/Meta.h:80-83 | aligning twice is aligning once |
| Meta.AlignUpShift | include/sigta/common/Meta.h:80-83 | adding a multiple of the alignment commutes with `align_up` |
| Meta.Has | include/sigta/common/Meta.h:97-101 | `Layout::has<C>` is list membership, false for the empty list |
| Meta.FirstIndex | include/sigta/common/Meta.h:102-109 | the position `getOffset` stops at holds C, and no earlier position does |
| Meta.GetSize | include/sigta/common/Meta.h:90-93 | `getSize(counter)` is at least 1 and at least the starting counter |
| Meta.GetAlign | include/sigta/common/Meta.h:94-96 | `getAlign` is the largest alignment in the list, or 1 for the empty list |
| Meta.GetOffset | include/sigta/common/Meta.h:102-109 | `getOffset<C>` is at least the incoming counter and aligned to C's alignment; asking for an absent C is excluded |
| Meta.GetOffsetIsFirstPlacement | include/sigta/common/Meta.h:102-109 | `getOffset<C>` is where the layout places the first occurrence of C |
| Meta.GetSizeIsFinalCursor | include/sigta/common/Meta.h:90-93 | `getSize` is the running counter after the last component, raised to at least 1 |
| Meta.PlacementsDisjoint | include/sigta/common/Meta.h:90-93 | with sizes padded to alignment, a component placed earlier ends before a later one begins |
| Meta.OffsetsDisjoint | include/sigta/common/Meta.h:102-109 | two distinct components of a padded layout occupy disjoint byte ranges |
| Meta.OffsetWithinSize | include/sigta/common/Meta.h:90-109 | every component present ends within `getSize` |
| Meta.ForAll | include/sigta/common/Meta.h:42-51 | `for_all` holds exactly when the predicate holds for every element (true on the empty list) |
| Meta.ForAny | include/sigta/common/Meta.h:64-73 | `for_any` holds exactly when the predicate holds for some element (false on the empty list) |
| Meta.ForNone | include/sigta/common/Meta.h:75-78 | `for_none` holds exactly when the predicate holds for no element |
| Meta.ForNoneIsForAllNeg | include/sigta/common/Meta.h:10-16 | `for_none<P>` equals `for_all<un<P>::neg>` |
| Meta.ForAllBoth | include/sigta/common/Meta.h:18-29 | `for_all<bin<P,Q>::both>` holds exactly when both `for_all<P>` and `for_all<Q>` do |
| Meta.ForAnyEither | include/sigta/common/Meta.h:18-29 | `for_any<bin<P,Q>::either>` holds exactly when `for_any<P>` or `for_any<Q>` does |
| RelPtrs.TraitsInverse | include/sigta/common/RelPtr.h:27-32 | `getOffset` and `getAddr` undo each other in both directions, and `getOffset(self, addr) == off` exactly when `getAddr(self, off) == addr` |
| RelPtrs.TraitNull | include/sigta/common/RelPtr.h:33 | the null sentinel is the greatest value of IntTy, and it is a value of IntTy |
| RelPtrs.CastFits | include/sigta/common/RelPtr.h:45-47 | `static_cast<IntTy>` lands in IntTy, keeps the value modulo the number of IntTy values, and gives back `off` exactly when `off` fits |
| RelPtrs.RoundTrip | include/sigta/common/RelPtr.h:52-64 | storing an encodable target and reading it back gives the target, null included |
| RelPtrs.Relocation | include/sigta/common/RelPtr.h:8-12 | a RelPtr moved by delta with its target reads the moved target; a null one stays null |
| RelPtrs.EncodeTranslationInvariant | include/sigta/common/RelPtr.h:27-29 | the stored offset does not depend on where the pair sits |
| RelPtrs.SameTargetSameGet | include/sigta/common/RelPtr.h:60-64 | two RelPtrs set to the same target read the same pointer |
| RelPtrs.NullEncodable | include/sigta/common/RelPtr.h:33 | at any address, null is encodable and reads back as null for `ptrdiff_t` and for `unsigned` |
| RelPtrs.RelPtr.constructor | include/sigta/common/RelPtr.h:74-78 | the constructors store the encoding of the target, and `get()` then returns it |
| RelPtrs.RelPtr.SetOffset | include/sigta/common/RelPtr.h:52-57 | `setOffset` stores the encoding (sentinel for null, `target - self` otherwise), and `get()` returns the target |
| RelPtrs.RelPtr.CheckItFits | include/sigta/common/RelPtr.h:45-48 | `checkItFits` asserts that the cast gives back `off`; the result then lies in IntTy and is `off` |
| RelPtrs.RelPtr.Assign | include/sigta/common/RelPtr.h:79-82 | `operator=` stores the encoding of the target, and `get()` returns it |
| RelPtrs.RelPtr.Get | include/sigta/common/RelPtr.h:60-64 | for a RelPtr that `setOffset` could have left, `get()` is null exactly when the stored offset is the sentinel |
| RelPtrs.RelPtr.IsSet | include/sigta/common/RelPtr.h:71 | `operator bool` holds exactly when the stored offset is not the sentinel |
| RelPtrs.RelPtr.IsNull | include/sigta/common/RelPtr.h:72 | `operator!` is the negation of `operator bool` |
| RelPtrs.RelPtr.Deref | include/sigta/common/RelPtr.h:65-69 | `*` and `->` require a non-null pointer; the stored offset is then not the sentinel and the address is `self + Offset` |
| RelPtrs.RelPtr.At | include/sigta/common/RelPtr.h:70 | `[idx]` requires non-null and is the address `idx * sizeof(T)` bytes past `self + Offset`, the same as `ptr + idx` |
| RelPtrs.RelPtr.Plus | include/sigta/common/RelPtr.h:84-86 | on a set pointer, `ptr + off` is `self + Offset` moved by `off` elements |
| RelPtrs.RelPtr.Minus | include/sigta/common/RelPtr.h:87-89 | `ptr - off` is `ptr + (-off)` |
| RelPtrs.RelPtr.OperatorsAfterSet | include/sigta/common/RelPtr.h:52-89 | after `setOffset(t)` with t non-null, `bool` holds, `!` does not, `*` gives t, and `[i]` and `+ i` give `t + i * sizeof(T)`; after `setOffset(nullptr)` `!` holds; `- k` is always `+ (-k)` |
| RelPtrs.RelPtr.CopiedTo | include/sigta/common/RelPtr.h:8-12 | a byte-wise copy delta bytes away keeps the stored offset and points at the moved target |
| RelPtrs.CopyPlus | include/sigta/common/RelPtr.h:8-12 | a byte-wise copy moved by delta is set, and its `get()`, `[i]`, `+ i` and `- i` are the original's moved by delta |
| RttiLinear.NotEqualsIsDistinctValue | include/sigta/common/Extras.h:24-26 | `!=` on LinearID is the negation of `==`, that is, inequality of the integers |
| RttiLinear.LinearId.constructor | include/sigta/common/RTTI.h:29-35 | a fresh category has counter `Start`, is not frozen and has no types |
| RttiLinear.LinearId.Register | include/sigta/common/RTTI.h:37-46 | a type registered before freezing takes the current counter, and the counter moves up by one in IDTy |
| RttiLinear.LinearId.Get | include/sigta/common/RTTI.h:59-65 | `get<Ty>` freezes the category and returns Ty's id |
| RttiLinear.LinearId.MaxId | include/sigta/common/RTTI.h:52-57 | `maxID` freezes and returns the counter, which is `Start` plus the number of types while there is no wrap-around |
| RttiLinear.LinearId.CountIds | include/sigta/common/RTTI.h:50 | `countIDs` is `maxID() - Start` in IDTy, which is the number of registered types without wrap-around |
| RttiLinear.LinearId.IdsDistinct | include/sigta/common/RTTI.h:31-46 | without wrap-around, distinct types have distinct ids |
| RttiLinear.LinearId.IdsInRange | include/sigta/common/RTTI.h:31-46 | without wrap-around, ids lie in `[Start, Start + count)` |
| RttiLinear.RegisterThree | test/RTTI.cpp:20-26 | the first three types of a fresh category with a 32-bit `unsigned` IDTy starting at 2 receive 2, 3 and 4 and the counter moves to 5 |
| RttiLinear.RegisterTwoMore | test/RTTI.cpp:20-26 | the next two types receive 5 and 6 |
| RttiHierarchy.NotEqualsIsDistinctValue | include/sigta/common/RTTI.h:188 | `!=` on HierarchyID is the negation of `==`, that is, inequality of the integers |
| RttiHierarchy.WalkAt | include/sigta/common/RTTI.h:136-144 | without wrap-around, the walk gives each node its preorder position as `min` and the end of its subtree as `max` |
| RttiHierarchy.WalkKeys | include/sigta/common/RTTI.h:136-144 | the walk writes `min` and `max` for exactly the nodes reachable from where it starts |
| RttiHierarchy.WalkNext | include/sigta/common/RTTI.h:136-144 | without wrap-around, the counter ends at the start plus the node count |
| RttiHierarchy.SubInterval | include/sigta/common/RTTI.h:136-144 | in the reference numbering a descendant's interval lies inside its ancestor's |
| RttiHierarchy.OutsideInterval | include/sigta/common/RTTI.h:136-144 | in the reference numbering a node outside a's subtree has its position outside a's interval |
| RttiHierarchy.PreInjective | include/sigta/common/RTTI.h:136-144 | in the reference numbering distinct nodes have distinct positions |
| RttiHierarchy.AddChildKids | include/sigta/common/RTTI.h:114-122 | appending a child leaves the parent's children as before, in order, followed by the new one |
| RttiHierarchy.LinkedAttach | include/sigta/common/RTTI.h:114-122 | `buildGraph`'s single store at the end of the parent's chain makes the links spell out the enlarged tree |
| RttiHierarchy.LinkedFrame | include/sigta/common/RTTI.h:121 | a store into a field of a node outside a tree leaves that tree's links unchanged |
| RttiHierarchy.DeclareOk | include/sigta/common/RTTI.h:114-131 | declaring a child keeps the graph invariant and keeps BaseTy's tree first |
| RttiHierarchy.FreshAttachable | include/sigta/common/RTTI.h:114-131 | a type with no node yet, declared under any other type, brings a single node and keeps the graph a forest |
| RttiHierarchy.HierarchyId.constructor | include/sigta/common/RTTI.h:110-111 | before any declaration every node's fields are null or zero, and only BaseTy's node exists |
| RttiHierarchy.HierarchyId.ChainEnd | include/sigta/common/RTTI.h:117-119 | the loop stops at the null field ending the parent's child chain |
| RttiHierarchy.HierarchyId.DeclareChild | include/sigta/common/RTTI.h:114-131 | a pair's first declaration stores the child at the end of the parent's chain and a repeated one changes nothing; the forest keeps its shape, with the child's tree appended to the parent's children in order, exactly when the child is not BaseTy, has no parent yet and is not an ancestor of the parent |
| RttiHierarchy.HierarchyId.RecursiveIdBuilder | include/sigta/common/RTTI.h:136-144 | numbering a chain writes exactly the walk's `min`/`max` and returns its final counter |
| RttiHierarchy.HierarchyId.Init | include/sigta/common/RTTI.h:150-159 | `init` runs only unfrozen, freezes, numbers BaseTy's tree from `start`, and without wrap-around leaves BaseTy's `max` at `start` plus the node count |
| RttiHierarchy.HierarchyId.Get | include/sigta/common/RTTI.h:174-178 | `get<Ty>` requires init and returns Ty's `min`: its preorder position, or 0 for a type outside the hierarchy |
| RttiHierarchy.HierarchyId.MaxId | include/sigta/common/RTTI.h:171 | `maxID` is BaseTy's `max`: 0 before init, and `start` plus the node count after init without wrap-around |
| RttiHierarchy.HierarchyId.IntervalBounds | include/sigta/common/RTTI.h:136-159 | after init every node has `start <= min < max <= maxID()` |
| RttiHierarchy.HierarchyId.IdsDistinct | include/sigta/common/RTTI.h:174-178 | after init distinct types of the hierarchy get distinct ids |
| RttiHierarchy.HierarchyId.Nested | include/sigta/common/RTTI.h:136-144 | after init a descendant's interval lies inside its ancestor's |
| RttiHierarchy.HierarchyId.SiblingsOrderedById | include/sigta/common/RTTI.h:136-144 | after init sibling intervals are disjoint and ordered by declaration |
| RttiHierarchy.HierarchyId.IsClassOfIffDescends | include/sigta/common/RTTI.h:180-185 | `isclassof<A>(get<B>())` holds exactly when B is A or derives from A |
| RttiHierarchy.HierarchyId.IsClassOfOutside | include/sigta/common/RTTI.h:180-185 | a type outside the hierarchy is a class of no id |
| Ecs.Truncate | include/sigta/common/ECS.h:73-75 | storing a distance into OffsetTy gives a value below the number of OffsetTy values, equal to the distance when it fits |
| Ecs.ApplyCell | include/sigta/common/ECS.h:68-80 | after a sequence of stores, a cell holds the stored value if some store hit it and is unchanged otherwise |
| Ecs.CellInBounds | include/sigta/common/ECS.h:133-144 | with at least as many component ids as entity ids, every cell `ent * lineLength + comp` is inside the table |
| Ecs.CellOutOfBounds | include/sigta/common/ECS.h:133-144 | with fewer component ids than entity ids, the last entity's last component is outside the table |
| Ecs.CellsDistinct | include/sigta/common/ECS.h:133-135 | component ids below the stride give distinct cells to distinct pairs |
| Ecs.CellsAlias | include/sigta/common/ECS.h:133-135 | a component id equal to the stride shares its cell with component 0 of the next entity |
| Ecs.StrideAliasExample | include/sigta/common/ECS.h:142-144 | in a concrete 3-entity, 4-component table, a store for one type lands in another type's cell |
| Ecs.NegativeDistanceDisagrees | include/sigta/common/ECS.h:37-40 | a negative distance d is stored as d plus the number of OffsetTy values, which is not `invalidOffset` unless d is -1, so the base `ecs_get` lands that many bytes past the concrete one (ECS.h:73-75, 100-103) |
| Ecs.CellOfFilled | include/sigta/common/ECS.h:68-80 | without collisions, a filled type's cell for a component holds its truncated distance if the type has it and `invalidOffset` otherwise |
| Ecs.Registry.constructor | include/sigta/common/ECS.h:130-131 | before `init` the table is empty and nothing is filled |
| Ecs.Registry.DeclareEntityType | include/sigta/common/ECS.h:46-49 | an EntitySpec's `Inherits` base records the spec and declares the concrete type under ParentBaseTy, with the whole effect of the hierarchy's declaration: the pair is recorded, a repeated pair changes nothing, a new one stores the type at the end of the parent's chain, and the forest grows by the type's tree exactly when that declaration is attachable |
| Ecs.Registry.RegisterComponent | include/sigta/common/ECS.h:125 | a component type takes the next component id, the counter moves up by one in IDTy, and the category stays open for more registrations |
| Ecs.TwoComponents | include/sigta/common/ECS.h:125 | two component types registered in a row take ids 0 and 1, and the counter ends at 2 |
| Ecs.TwoEntityTypes | include/sigta/common/ECS.h:46-49 | two entity types declared under BaseTy in a row both have their pair recorded, become BaseTy's children in declaration order, and the hierarchy stays a forest |
| Ecs.Registry.Init | include/sigta/common/ECS.h:138-145 | `init` is a no-op on a non-empty table; otherwise it numbers the hierarchy, fills `entityMax * componentMax` cells with `invalidOffset` and sets the stride to `entityMax` |
| Ecs.Registry.Allocate | include/sigta/common/ECS.h:141-144 | numbering, blank table of `entityMax * componentMax` cells, stride `entityMax` |
| Ecs.Registry.Offset | include/sigta/common/ECS.h:133-135 | `getOffset` reads a cell of the table |
| Ecs.Registry.WriteRow | include/sigta/common/ECS.h:69-79 | the fold over the components stores each truncated distance at `(ent, get<Cmp>())`, left to right |
| Ecs.Registry.FillTableOnFirstUse | include/sigta/common/ECS.h:82-84 | a type's row is stored on its first use only; later uses change nothing |
| Ecs.Registry.InitTable | include/sigta/common/ECS.h:68-80 | the first fill stores the type's row at its hierarchy id and records the type as filled |
| Ecs.Registry.Construct | include/sigta/common/ECS.h:89-96 | construction fills the table on first use and stamps the type's hierarchy id into the entity |
| Ecs.Registry.BaseGet | include/sigta/common/ECS.h:37-40 | `ecs_get` through a base requires `ecs_has` and returns the base address plus a stored offset that is not `invalidOffset` |
| Ecs.Registry.SpecHas | include/sigta/common/ECS.h:97-99 | the static `ecs_has<C>` holds exactly when C is among the declared components |
| Ecs.Registry.SpecGet | include/sigta/common/ECS.h:100-103 | the concrete `ecs_get<C>` is the address of a tuple element of type C, and, with no component type repeated, of every such element |
| Ecs.Registry.CellOfEntity | include/sigta/common/ECS.h:24-28 | without collisions, a constructed entity's cell for a component is its truncated distance or `invalidOffset` |
| Ecs.Registry.BaseAgreesWithSpec | include/sigta/common/ECS.h:34-43 | without collisions and with distances in `[0, invalidOffset)`, base `ecs_has`/`ecs_get`/`ecs_get_or_null` agree with the concrete type's static `ecs_has`/`ecs_get`/`ecs_get_or_null` (ECS.h:97-109) |

## Left out

- ManagedObjs.h is not part of this model. It is a concurrent, reference-counted lifetime holder, and placement-new over raw storage.
- `UniqueID` (RTTI.h) is not modelled. Its identity is the address of a function-local static, so there is nothing to compute.
- `extra::assertSingleThread` and the thread-safety of function-local statics are not modelled. Every operation is sequential.
- Static-initialisation order is not modelled. `initT`, `graphBuilder` and `Inherits` run as explicit calls (`Register`, `DeclareChild`, `DeclareEntityType`, `RegisterComponent`) in an order the caller picks. Any order of declarations is allowed: graphs detached from BaseTy are kept as extra trees in the forest.
- The `union Node` sharing of `{min, max}` with `{child, next}` is not modelled. The model keeps separate fields, and `RecursiveIdBuilder` reads the child pointer before writing `min`, as the source does. After `init`, the model still has links that the source has overwritten. Nothing reads them after init, because `buildGraph` asserts the hierarchy is not frozen.
- RttiHierarchy.HierarchyId.RecursiveIdBuilder: the model is faithful only while `2 * sizeof(IDTy) <= sizeof(Node*)`, as for the default `uint16_t`. For a wider IDTy, such as a 64-bit IDTy on a 64-bit target, `max` overlaps `next`, and the source reads `next` after writing `max`. The model reads the untouched link.
- RttiHierarchy.HierarchyId.Get: for a type outside BaseTy's tree whose node has a child link, the source returns bits of that pointer through the union. The model returns 0, which is what the source gives only when the node has no child.
- RttiHierarchy.HierarchyId.IsClassOfOutside: it holds for the model's separate fields. In the source, `isclassof` on a type outside BaseTy's tree that has a child reads pointer bits as `min` and `max`, and may hold.
- RttiHierarchy.HierarchyId.MaxId: before init the model gives 0. The source reads BaseTy's `max`, which shares bytes with BaseTy's child pointer, so it gives pointer bits once BaseTy has a child.
- RttiHierarchy.HierarchyId.DeclareChild: every declaration is accepted, and its store is made as in the source. A declaration that would not keep the graph a forest clears the ghost flag `wellFormed`. This covers a child that is BaseTy itself, a second parent for the same child, and a parent inside the child's own tree. After that, the graph is a DAG or has a cycle. `ChainEnd`, `DeclareChild`, `Init` and `Registry.Init` then require `wellFormed`, so the model says nothing about a graph that is not a forest. On a cycle, `buildGraph`'s loop and `recursiveIDBuilder` may not terminate in the source. `Inherits<A, B>` together with `Inherits<B, A>` is such a case. This was reasoned out, not executed.
- Real C++ object layout is not modelled: `std::tuple` placement, `reinterpret_cast`, `static_cast` to the root part. A component's byte distance from the RootTy part is given per concrete type as an integer (`Field.distance`). `EntitySpec::ecs_get` is that distance added to the entity's address.
- The `static_assert`s of EntitySpec (`is_final`, `is_base_of`) are not checked, and neither are `std::get`'s rejection of a repeated component type. The last one becomes the precondition `DistinctComponents`.
- `NDEBUG`-dependent assertions: they are modelled as preconditions, as if assertions are on.
- Ecs.Registry.FillTableOnFirstUse, Ecs.Registry.InitTable and Ecs.Registry.Construct: indexing the table out of range is undefined behaviour in the source. The model requires the row to lie within the table (`InTable`). `Offset` and the base queries likewise require an in-range cell. The lemmas `CellInBounds` and `CellOutOfBounds` say when this holds.
- Ecs.Registry.FillTableOnFirstUse, Ecs.Registry.InitTable and Ecs.Registry.Construct: they require a non-empty table as the sign that `init` has run. In a program with no component type the table stays empty after `init`, and the source still constructs entities there: the fold is empty and only the id is stamped. The model does not cover construction in that program. With no component type there is no base query whose answer this could change.
- Ecs.Registry.Init: it requires that, when the table is still empty, the hierarchy has not been numbered yet. In the source, a second `init` on an empty table (no component registered) fails the hierarchy's assertion.
- Ecs.Registry.BaseAgreesWithSpec: the agreement is stated only under `Separated`: no id wrap-around, component ids below the stride, and filled types inside the hierarchy. It also assumes distances in `[0, invalidOffset)`. Outside these conditions the source itself gives other answers, as `StrideAliasExample` shows for colliding rows. A component laid out before the RootTy part has a negative distance d. Its cell then holds d plus the number of OffsetTy values. Unless d is -1, `ecs_has` through the base holds, and `ecs_get` through the base returns an address that many bytes past the concrete one, as `NegativeDistanceDisagrees` shows.
- The `AllocatorTy` parameter of `ecs_impl` and the `SIGTA_ECS_USING_ENTITY_SPEC` macro are not modelled. Neither carries logic.
- `size_t` overflow of `ent * lineLength + comp` is not modelled, and neither is the overflow of `align_up` and `getSize` (Meta.h:80-93). These are unbounded integers.
- Ecs.Registry.Allocate: the table size `entityMax * componentMax` is a product of two `uint16_t` values, promoted to `int`. In the source this is signed overflow once the product exceeds 2^31 - 1. The model computes the exact product.
- `getInt()` of both id types is not modelled separately. It is the `value` field.
- `meta::X::is_base_of`, `get_first` and `assert_for_all` are not modelled. They are type-level helpers with no arithmetic. `assert_for_all` is a compile-time `for_all`.
- `RelPtr`'s element type `T` is reduced to its size (`elemSize`), for `[]`, `+` and `-`. Its deleted copy operations are reflected only by `self` being a constant. The `static_assert` that IntTy lies within `ptrdiff_t` becomes a precondition (`WithinPtrdiff`).
- RelPtrs.RelPtr.Plus and RelPtrs.RelPtr.Minus: `operator+` and `operator-` take their RelPtr by value. The copy constructor is deleted, so they can be called only on a prvalue, which is built in place. The model computes `get() + off` and `get() - off` on the RelPtr itself, and it does not model the temporary. On a null RelPtr the source computes `nullptr + off` with no assertion, which is undefined behaviour for `off != 0`. The model then returns `off * sizeof(T)` (and its negation) instead, and its contracts say nothing about that case.
- The gtest test cases, the `ComplexObj` counters, and the thread test are not modelled. `RegisterThree`/`RegisterTwoMore`/`FiveTypesScenario`, `MemcpyScenario` and `StrideAliasExample` mirror single scenarios instead.
