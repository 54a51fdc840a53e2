/** Sequential type identifiers within one category (`LinearID` in RTTI.h).
    A type is an explicit key; the static `init<Ty>` member that hands a
    type its id during static initialisation becomes a `Register` call. */
module RttiLinear {

  import Arith

  type TypeKey = nat

  /** A LinearID value. Equality is by the underlying integer. */
  datatype LinearIdValue = LinearIdValue(value: nat)
  {
    /** `operator==`. */
    predicate Equals(other: LinearIdValue)
    {
      value == other.value
    }

    /** `operator!=`, which EquallyComparable defines as !(a == b). */
    predicate NotEquals(other: LinearIdValue)
    {
      !Equals(other)
    }
  }

  /** != on ids is exactly inequality of the integers. */
  lemma NotEqualsIsDistinctValue(a: LinearIdValue, b: LinearIdValue)
    ensures a.NotEquals(b) <==> a.value != b.value
    ensures a.NotEquals(b) <==> a != b
  {
  }

  /** One category of ids: `LinearID<UniquerTy, IDTy, Start>`.
      `bound` is the number of values of IDTy (65536 for uint16_t). */
  class LinearId {
    const start: nat
    const bound: nat
    /** `internalCount()`: the next id to hand out. */
    var count: nat
    /** `isFrozen`: set by the first read. */
    var frozen: bool
    /** `init<Ty>.id` of every registered type. */
    var ids: map<TypeKey, nat>
    /** How many types have registered. */
    ghost var registered: nat
    /** The position of each registered type in registration order. */
    ghost var rank: map<TypeKey, nat>

    /** The counter is Start advanced once per registration, in IDTy
        arithmetic; the types registered so far have distinct positions
        below `registered`, and the one at position i received Start
        advanced i times. */
    ghost predicate Valid()
      reads this
    {
      start < bound && count < bound &&
      count == Arith.Advance(start, registered, bound) &&
      rank.Keys == ids.Keys &&
      (forall t :: t in rank ==> rank[t] < registered) &&
      (forall a, b :: a in rank && b in rank && a != b ==> rank[a] != rank[b]) &&
      (forall t :: t in ids ==> ids[t] == Arith.Advance(start, rank[t], bound))
    }

    /** A fresh category: the counter is Start and nothing is registered. */
    constructor (start: nat, bound: nat)
      requires start < bound
      ensures Valid()
      ensures this.start == start && this.bound == bound
      ensures count == start && !frozen && ids == map[] && registered == 0
    {
      this.start := start;
      this.bound := bound;
      count := start;
      frozen := false;
      ids := map[];
      registered, rank := 0, map[];
    }

    /** `initT<Ty>()`: the one-time static initialiser of a type takes the
        current counter value and bumps the counter (`internalCount()++`,
        wrapping like IDTy). It runs once per type, hence `t !in ids`;
        running it after a read has frozen the category is an assertion
        failure, hence `!frozen`. */
    method Register(t: TypeKey)
      requires Valid() && !frozen && t !in ids
      modifies this
      ensures Valid() && !frozen
      ensures ids == old(ids)[t := old(count)]
      ensures count == Arith.Inc(old(count), bound)
      ensures registered == old(registered) + 1
    {
      ids := ids[t := count];
      count := Arith.Inc(count, bound);
      rank := rank[t := registered];
      registered := registered + 1;
    }

    /** `get<Ty>()`: freezes the category and returns the type's id. */
    method Get(t: TypeKey) returns (r: LinearIdValue)
      requires Valid() && t in ids
      modifies this`frozen
      ensures Valid() && frozen
      ensures r.value == ids[t]
    {
      frozen := true;
      r := LinearIdValue(ids[t]);
    }

    /** `maxID()`: freezes the category and returns one past the last id. */
    method MaxId() returns (r: LinearIdValue)
      requires Valid()
      modifies this`frozen
      ensures Valid() && frozen
      ensures r.value == count
      ensures start + registered < bound ==> r.value == start + registered
    {
      frozen := true;
      r := LinearIdValue(count);
      if start + registered < bound {
        Arith.AdvanceNoWrap(start, registered, bound);
      }
    }

    /** `countIDs()`: maxID() - Start in IDTy arithmetic, which is the
        number of registered types while the counter has not wrapped. */
    method CountIds() returns (r: nat)
      requires Valid()
      modifies this`frozen
      ensures Valid() && frozen
      ensures r == (count - start) % bound
      ensures start + registered < bound ==> r == registered
    {
      var m := MaxId();
      r := (m.value - start) % bound;
      if start + registered < bound {
        Arith.ModUnique(m.value - start, 0, registered, bound);
      }
    }

    /** While the ids have not wrapped, the ids of distinct types differ. */
    lemma IdsDistinct(a: TypeKey, b: TypeKey)
      requires Valid() && start + registered <= bound
      requires a in ids && b in ids && a != b
      ensures ids[a] != ids[b]
    {
      Arith.AdvanceNoWrap(start, rank[a], bound);
      Arith.AdvanceNoWrap(start, rank[b], bound);
    }

    /** While the ids have not wrapped, they are exactly
        Start, Start + 1, ..., Start + count - 1. */
    lemma IdsInRange(a: TypeKey)
      requires Valid() && start + registered <= bound && a in ids
      ensures start <= ids[a] < start + registered
    {
      Arith.AdvanceNoWrap(start, rank[a], bound);
    }
  }

  /** The first three `initT` runs of a fresh category starting at 2
      give the types 2, 3 and 4. */
  method RegisterThree(c: LinearId)
    requires c.Valid() && !c.frozen && c.ids == map[] && c.registered == 0
    requires c.start == 2 && c.bound == Arith.Uint32Bound
    modifies c
    ensures c.Valid() && !c.frozen && c.registered == 3
    ensures c.ids == map[10 := 2, 11 := 3, 12 := 4] && c.count == 5
  {
    c.Register(10);
    c.Register(11);
    c.Register(12);
  }

  /** Two more runs give the next two types 5 and 6. */
  method RegisterTwoMore(c: LinearId)
    requires c.Valid() && !c.frozen && c.registered == 3
    requires c.ids == map[10 := 2, 11 := 3, 12 := 4] && c.count == 5
    requires c.start == 2 && c.bound == Arith.Uint32Bound
    modifies c
    ensures c.Valid() && !c.frozen && c.registered == 5
    ensures c.ids == map[10 := 2, 11 := 3, 12 := 4, 13 := 5, 14 := 6]
  {
    c.Register(13);
    c.Register(14);
  }

  /** Five types registered in a category whose IDTy is a 32-bit
      `unsigned`, starting at 2, receive 2 to 6; lookups freeze the
      category, and countIDs() is 5. */
  method FiveTypesScenario()
  {
    var c := new LinearId(2, Arith.Uint32Bound);
    RegisterThree(c);
    RegisterTwoMore(c);
    var a := c.Get(10);
    var e := c.Get(14);
    var n := c.CountIds();
    assert a.value == 2 && e.value == 6 && n == 5 && c.frozen;
  }
}
