/** A self-relative pointer (RelPtr.h): it stores `target - self` in a
    bounded integer, with the integer type's maximum as the null encoding.
    Addresses are integers and address 0 is the null pointer. */
module RelPtrs {

  import Arith

  /** The null pointer. */
  const Null: int := 0

  /** The value range of the integer type `IntTy` that holds the offset. */
  datatype IntRange = IntRange(min: int, max: int)

  /** `std::ptrdiff_t` on a 64-bit target, the default `IntTy`. */
  const Ptrdiff: IntRange := IntRange(-0x8000_0000_0000_0000, 0x7fff_ffff_ffff_ffff)

  /** `unsigned`, the other `IntTy` the source exercises. */
  const Unsigned: IntRange := IntRange(0, 0xffff_ffff)

  /** The `static_assert`s of RelPtr: IntTy lies within ptrdiff_t. */
  predicate WithinPtrdiff(r: IntRange)
  {
    Ptrdiff.min <= r.min <= r.max <= Ptrdiff.max
  }

  /** `static_cast<IntTy>(off) == off`: the value survives the cast.
      For a narrower signed or unsigned IntTy this is exactly range
      membership, since the comparison is done in ptrdiff_t. */
  predicate Fits(r: IntRange, off: int)
  {
    r.min <= off <= r.max
  }

  // RelPtrTraits

  /** `RelPtrTraits::getOffset(self, addr)`. */
  function TraitOffset(self: int, addr: int): (d: int)
    ensures TraitAddr(self, d) == addr
  {
    addr - self
  }

  /** `RelPtrTraits::getAddr(self, offset)`. */
  function TraitAddr(self: int, offset: int): (a: int)
  {
    self + offset
  }

  /** getOffset and getAddr are inverse to each other in both directions:
      an offset taken at self leads back to its address, and an address
      reached from self gives back its offset. */
  lemma TraitsInverse(self: int, addr: int, offset: int)
    ensures TraitAddr(self, TraitOffset(self, addr)) == addr
    ensures TraitOffset(self, TraitAddr(self, offset)) == offset
    ensures TraitOffset(self, addr) == offset <==> TraitAddr(self, offset) == addr
  {
  }

  /** `RelPtrTraits::getNull(self)`: the maximum of IntTy, whatever self is. */
  function TraitNull(r: IntRange, self: int): (n: int)
    ensures Fits(r, n) <==> r.min <= r.max
    ensures forall o :: Fits(r, o) ==> o <= n
  {
    r.max
  }

  /** The number of values of IntTy. */
  function Width(r: IntRange): nat
    requires r.min <= r.max
  {
    r.max - r.min + 1
  }

  /** `static_cast<IntTy>(off)`: the value of IntTy congruent to off modulo
      the number of IntTy values (two's complement wrap-around for a signed
      IntTy, reduction modulo 2^n for an unsigned one). */
  function Cast(r: IntRange, off: int): (c: int)
    requires r.min <= r.max
  {
    r.min + (off - r.min) % Width(r)
  }

  /** The cast lands in IntTy, keeps the value modulo the width, and is the
      identity exactly on the values that fit. */
  lemma {:induction false} CastFits(r: IntRange, off: int)
    requires r.min <= r.max
    ensures Fits(r, Cast(r, off))
    ensures (Cast(r, off) - off) % Width(r) == 0
    ensures Cast(r, off) == off <==> Fits(r, off)
  {
    var w := Width(r);
    var q, m := (off - r.min) / w, (off - r.min) % w;
    assert off - r.min == q * w + m;
    assert Cast(r, off) - off == (-q) * w + 0;
    Arith.ModUnique(Cast(r, off) - off, -q, 0, w);
    if Fits(r, off) {
      Arith.ModUnique(off - r.min, 0, off - r.min, w);
    }
  }

  /** The offset `setOffset(target)` computes before its checks. */
  function Encode(r: IntRange, self: int, target: int): int
  {
    if target == Null then TraitNull(r, self) else TraitOffset(self, target)
  }

  /** The two assertions of `setOffset`: the offset fits in IntTy, and a
      non-null target does not encode to the null sentinel. */
  predicate Encodable(r: IntRange, self: int, target: int)
  {
    Fits(r, Encode(r, self, target)) &&
    (target != Null ==> Encode(r, self, target) != TraitNull(r, self))
  }

  /** `get()`: the sentinel reads as null, anything else as self + offset. */
  function Decode(r: IntRange, self: int, offset: int): int
  {
    if offset == TraitNull(r, self) then Null else TraitAddr(self, offset)
  }

  /** An offset that setOffset can leave behind at address self. */
  predicate Stored(r: IntRange, self: int, offset: int)
  {
    Fits(r, offset) && (offset != TraitNull(r, self) ==> TraitAddr(self, offset) != Null)
  }

  /** Round trip: storing a target and reading it back returns the target,
      the null pointer included. */
  lemma RoundTrip(r: IntRange, self: int, target: int)
    requires Encodable(r, self, target)
    ensures Decode(r, self, Encode(r, self, target)) == target
  {
  }

  /** Relocation: a RelPtr copied byte for byte together with its target,
      both moved by delta, reads the moved target; a null one stays null. */
  lemma Relocation(r: IntRange, self: int, target: int, delta: int)
    requires Encodable(r, self, target)
    requires target != Null ==> target + delta != Null
    ensures Decode(r, self + delta, Encode(r, self, target)) ==
            if target == Null then Null else target + delta
  {
  }

  /** The stored offset does not depend on where the pair sits. */
  lemma EncodeTranslationInvariant(r: IntRange, self: int, target: int, delta: int)
    requires target != Null && target + delta != Null
    ensures Encode(r, self + delta, target + delta) == Encode(r, self, target)
  {
  }

  /** `RelPtr<T, IntTy>`: `Offset` is the only state; `self` is the address
      of the object, fixed because copying and moving are deleted. */
  class RelPtr {
    const range: IntRange
    const self: int
    /** `sizeof(T)`, the step of `operator[]`, `operator+` and `operator-`. */
    const elemSize: nat
    var offset: int

    /** The stored offset fits and, unless it is the sentinel, leads to a
        non-null address: it is an offset setOffset could have produced. */
    ghost predicate Valid()
      reads this
    {
      WithinPtrdiff(range) && Stored(range, self, offset)
    }

    /** `RelPtr(T*)`, `RelPtr(nullptr)` and the default constructor (which
        delegates to the null one). */
    constructor (range: IntRange, self: int, elemSize: nat, target: int)
      requires WithinPtrdiff(range) && Encodable(range, self, target)
      ensures Valid()
      ensures this.range == range && this.self == self && this.elemSize == elemSize
      ensures offset == Encode(range, self, target)
      ensures Get() == target
    {
      this.range := range;
      this.self := self;
      this.elemSize := elemSize;
      new;
      SetOffset(target);
    }

    /** `setOffset(other)`: store the encoding of `other`; the two
        assertions of the source are the precondition. */
    method SetOffset(target: int)
      requires WithinPtrdiff(range) && Encodable(range, self, target)
      modifies this`offset
      ensures Valid()
      ensures offset == Encode(range, self, target)
      ensures Get() == target
    {
      CastFits(range, Encode(range, self, target));
      offset := CheckItFits(Encode(range, self, target));
      RoundTrip(range, self, target);
    }

    /** `checkItFits(off)`: the narrowing cast, whose assertion is that it
        gives back off. */
    function CheckItFits(off: int): (r: int)
      requires range.min <= range.max && Cast(range, off) == off
      ensures Fits(range, r) && r == off
    {
      CastFits(range, off);
      Cast(range, off)
    }

    /** `operator=(T*)`: same as setOffset. */
    method Assign(target: int)
      requires WithinPtrdiff(range) && Encodable(range, self, target)
      modifies this`offset
      ensures Valid()
      ensures offset == Encode(range, self, target)
      ensures Get() == target
    {
      SetOffset(target);
    }

    /** `get()`. */
    function Get(): (t: int)
      reads this
      ensures Valid() ==> (t == Null <==> offset == TraitNull(range, self))
    {
      Decode(range, self, offset)
    }

    /** `explicit operator bool`: the target is not null. */
    predicate IsSet()
      reads this
      ensures Valid() ==> (IsSet() <==> offset != TraitNull(range, self))
    {
      Get() != Null
    }

    /** `operator!`. */
    predicate IsNull()
      reads this
      ensures IsNull() <==> !IsSet()
    {
      Get() == Null
    }

    /** `operator*` and `operator->`: the referenced address; dereferencing
        null is an assertion failure. */
    function Deref(): (p: int)
      requires IsSet()
      reads this
      ensures p != Null && offset != TraitNull(range, self) && p == self + offset
    {
      Get()
    }

    /** `operator[](idx)`: the address of element idx; asserts non-null. */
    function At(idx: int): (p: int)
      requires IsSet()
      reads this
      ensures p == self + offset + idx * elemSize && p == Plus(idx)
    {
      Get() + idx * elemSize
    }

    /** `operator+(ptr, off)`: pointer arithmetic on get(). */
    function Plus(off: int): (p: int)
      reads this
      ensures IsSet() ==> p == self + offset + off * elemSize
    {
      Get() + off * elemSize
    }

    /** `operator-(ptr, off)`. */
    function Minus(off: int): (p: int)
      reads this
      ensures p == Plus(-off)
    {
      Get() - off * elemSize
    }

    /** What the operators give once `setOffset(t)` has run: for a non-null
        t the pointer is set, `*` and `->` give t, `[i]` and `+ i` give
        element i of the array at t, and `- k` is `+ (-k)`; for null the
        pointer is unset and `!` holds. */
    lemma OperatorsAfterSet(t: int, i: int, k: int)
      requires Valid() && Encodable(range, self, t) && offset == Encode(range, self, t)
      ensures t != Null ==> IsSet() && !IsNull() && Deref() == t
      ensures t != Null ==> At(i) == t + i * elemSize == Plus(i)
      ensures Minus(k) == Plus(-k)
      ensures t == Null <==> IsNull()
    {
      RoundTrip(range, self, t);
    }

    /** A byte-for-byte copy of this RelPtr placed delta bytes away (what
        `memcpy` of an enclosing struct does): it keeps the stored offset,
        so it points at the copy of the target. */
    method CopiedTo(delta: int) returns (q: RelPtr)
      requires Valid()
      requires Get() != Null ==> Get() + delta != Null
      ensures fresh(q) && q.Valid()
      ensures q.range == range && q.self == self + delta && q.elemSize == elemSize
      ensures q.offset == offset
      ensures q.Get() == if Get() == Null then Null else Get() + delta
    {
      q := new RelPtr.Bitwise(range, self + delta, elemSize, offset);
    }

    /** The object a byte-wise copy produces: no constructor logic runs. */
    constructor Bitwise(range: IntRange, self: int, elemSize: nat, offset: int)
      requires WithinPtrdiff(range) && Stored(range, self, offset)
      ensures Valid()
      ensures this.range == range && this.self == self && this.elemSize == elemSize
      ensures this.offset == offset
    {
      this.range := range;
      this.self := self;
      this.elemSize := elemSize;
      this.offset := offset;
    }
  }

  /** Pointer arithmetic follows a byte-wise copy: element i of a copy moved
      by delta is element i of the original moved by delta. */
  lemma CopyPlus(p: RelPtr, q: RelPtr, delta: int, i: int)
    requires p.Valid() && p.IsSet() && p.Get() + delta != Null
    requires q.range == p.range && q.self == p.self + delta
    requires q.elemSize == p.elemSize && q.offset == p.offset
    ensures q.IsSet() && q.Get() == p.Get() + delta
    ensures q.Plus(i) == p.Plus(i) + delta && q.At(i) == p.At(i) + delta
    ensures q.Minus(i) == p.Minus(i) + delta
  {
  }

  /** Two RelPtrs at different places set to the same target read the same
      pointer. */
  lemma SameTargetSameGet(r: IntRange, self1: int, self2: int, target: int)
    requires Encodable(r, self1, target) && Encodable(r, self2, target)
    ensures Decode(r, self1, Encode(r, self1, target)) == Decode(r, self2, Encode(r, self2, target))
  {
    RoundTrip(r, self1, target);
    RoundTrip(r, self2, target);
  }

  /** Null works for signed and unsigned IntTy alike: at any address the
      null pointer is encodable and reads back as null. */
  lemma NullEncodable(self: int)
    ensures Encodable(Ptrdiff, self, Null) && Decode(Ptrdiff, self, Encode(Ptrdiff, self, Null)) == Null
    ensures Encodable(Unsigned, self, Null) && Decode(Unsigned, self, Encode(Unsigned, self, Null)) == Null
  {
  }

  /** A client mirroring the memcpy scenario: a struct at address s holds a
      RelPtr to its own int field 8 bytes further; a copy of the struct at
      address s + delta points at its own field. */
  method MemcpyScenario(s: int, delta: int)
    requires s > 0 && s + delta > 0
  {
    var p := new RelPtr(Ptrdiff, s, 4, s + 8);
    assert p.Get() == s + 8;
    var q := p.CopiedTo(delta);
    assert q.Get() == s + delta + 8;
    q.Assign(Null);
    assert !q.IsSet() && p.Get() == s + 8;
  }
}
