/** Compile-time layout arithmetic and type-list predicates (Meta.h).
    A C++ type list becomes a sequence; a type-level predicate becomes a
    function from elements to bool. */
module Meta {

  import Arith

  /** One component type as the layout computation sees it:
      its identity, `sizeof` and `alignof`. */
  datatype Comp = Comp(id: nat, size: nat, align: nat)

  /** Every alignment is positive, as `alignof` always is. */
  predicate Aligned(l: seq<Comp>)
  {
    forall i :: 0 <= i < |l| ==> l[i].align > 0
  }

  /** What C++ guarantees of every complete type besides a positive
      alignment: its size is a multiple of its alignment. */
  predicate SizesPadded(l: seq<Comp>)
    requires Aligned(l)
  {
    forall i :: 0 <= i < |l| ==> l[i].size % l[i].align == 0
  }

  // ---------------------------------------------------------------------
  // align_up

  /** `align_up(value, align)`: the least multiple of `align` not below
      `value`, computed as ((value + (align - 1)) / align) * align. */
  function AlignUp(value: nat, align: nat): (r: nat)
    requires align > 0
    ensures value <= r < value + align
    ensures r % align == 0
  {
    var q := (value + (align - 1)) / align;
    MulMod(q, align);
    q * align
  }

  /** q * a is a multiple of a. */
  lemma MulMod(q: nat, a: nat)
    requires a > 0
    ensures (q * a) % a == 0
  {
    Arith.ModUnique(q * a, q, 0, a);
  }

  /** Two multiples of a that are less than a apart are equal. */
  lemma MultiplesApart(m1: nat, m2: nat, a: nat)
    requires a > 0 && m1 % a == 0 && m2 % a == 0
    requires m1 <= m2 < m1 + a
    ensures m1 == m2
  {
    var d := m2 / a - m1 / a;
    assert m1 == (m1 / a) * a && m2 == (m2 / a) * a;
    assert m2 - m1 == d * a;
    Arith.MulSign(d, a);
  }

  /** AlignUp is the least multiple of `align` not below `value`: any
      other such multiple is at least as large. */
  lemma {:induction false} AlignUpLeast(value: nat, align: nat, m: nat)
    requires align > 0 && m % align == 0 && value <= m
    ensures AlignUp(value, align) <= m
  {
    var r := AlignUp(value, align);
    if m < r {
      MultiplesApart(m, r, align);
    }
  }

  /** An already aligned value is returned unchanged. */
  lemma {:induction false} AlignUpOfAligned(value: nat, align: nat)
    requires align > 0 && value % align == 0
    ensures AlignUp(value, align) == value
  {
    MultiplesApart(value, AlignUp(value, align), align);
  }

  /** align_up is idempotent. */
  lemma {:induction false} AlignUpIdempotent(value: nat, align: nat)
    requires align > 0
    ensures AlignUp(AlignUp(value, align), align) == AlignUp(value, align)
  {
    AlignUpOfAligned(AlignUp(value, align), align);
  }

  /** Adding a multiple of the alignment commutes with alignment. */
  lemma {:induction false} AlignUpShift(value: nat, s: nat, align: nat)
    requires align > 0 && s % align == 0
    ensures AlignUp(value + s, align) == AlignUp(value, align) + s
  {
    var r := AlignUp(value, align);
    assert (r + s) % align == 0 by {
      var q1, q2 := r / align, s / align;
      assert r + s == (q1 + q2) * align;
      MulMod(q1 + q2, align);
    }
    var r' := AlignUp(value + s, align);
    if r' <= r + s {
      MultiplesApart(r', r + s, align);
    } else {
      MultiplesApart(r + s, r', align);
    }
  }

  // ---------------------------------------------------------------------
  // Layout<Comps...>

  /** `Layout<...>::has<C>()`: C is in the list. */
  function Has(l: seq<Comp>, c: nat): (r: bool)
    ensures r <==> exists i :: 0 <= i < |l| && l[i].id == c
  {
    if l == [] then false
    else
      assert forall i :: 1 <= i < |l| ==> l[i] == l[1..][i - 1];
      l[0].id == c || Has(l[1..], c)
  }

  /** The position of the first occurrence of c. */
  function FirstIndex(l: seq<Comp>, c: nat): (k: nat)
    requires Has(l, c)
    ensures k < |l| && l[k].id == c
    ensures forall j :: 0 <= j < k ==> l[j].id != c
  {
    if l[0].id == c then 0 else 1 + FirstIndex(l[1..], c)
  }

  /** `Layout<...>::getSize(counter)`: lay the components out one after
      another from `counter`; the empty layout takes at least one byte. */
  function GetSize(l: seq<Comp>, counter: nat := 0): (r: nat)
    requires Aligned(l)
    ensures r >= 1 && r >= counter
  {
    if l == [] then (if counter < 1 then 1 else counter)
    else GetSize(l[1..], AlignUp(counter + l[0].size, l[0].align))
  }

  /** `Layout<...>::getAlign()`: the largest alignment, 1 for no component. */
  function GetAlign(l: seq<Comp>): (r: nat)
    ensures r >= 1
    ensures forall i :: 0 <= i < |l| ==> l[i].align <= r
    ensures r == 1 || exists i :: 0 <= i < |l| && l[i].align == r
  {
    if l == [] then 1
    else
      var rest := GetAlign(l[1..]);
      assert forall i :: 1 <= i < |l| ==> l[i] == l[1..][i - 1];
      if l[0].align >= rest then l[0].align else rest
  }

  /** `Layout<...>::getOffset<C>(counter)`: the aligned position of the
      first occurrence of C. Asking for an absent component is an
      assertion failure, hence the precondition. */
  function GetOffset(l: seq<Comp>, c: nat, counter: nat := 0): (r: nat)
    requires Aligned(l) && Has(l, c)
    ensures r >= counter
    ensures r % l[FirstIndex(l, c)].align == 0
  {
    if l[0].id == c then AlignUp(counter, l[0].align)
    else GetOffset(l[1..], c, AlignUp(counter + l[0].size, l[0].align))
  }

  // ---------------------------------------------------------------------
  // A position-based reading of the same layout, used to state that the
  // components do not overlap.

  /** The counter handed to the component at position k. */
  function Cursor(l: seq<Comp>, counter: nat, k: nat): (r: nat)
    requires Aligned(l) && k <= |l|
    ensures r >= counter
  {
    if k == 0 then counter
    else Cursor(l[1..], AlignUp(counter + l[0].size, l[0].align), k - 1)
  }

  /** Where the component at position k is placed. */
  function OffsetAt(l: seq<Comp>, counter: nat, k: nat): nat
    requires Aligned(l) && k < |l|
  {
    AlignUp(Cursor(l, counter, k), l[k].align)
  }

  /** getOffset is the placement of the first occurrence. */
  lemma {:induction false} GetOffsetIsFirstPlacement(l: seq<Comp>, c: nat, counter: nat)
    requires Aligned(l) && Has(l, c)
    ensures GetOffset(l, c, counter) == OffsetAt(l, counter, FirstIndex(l, c))
  {
    if l[0].id != c {
      GetOffsetIsFirstPlacement(l[1..], c, AlignUp(counter + l[0].size, l[0].align));
    }
  }

  /** getSize is the counter after the last component (at least 1). */
  lemma {:induction false} GetSizeIsFinalCursor(l: seq<Comp>, counter: nat)
    requires Aligned(l)
    ensures GetSize(l, counter) == if Cursor(l, counter, |l|) < 1 then 1 else Cursor(l, counter, |l|)
  {
    if l != [] {
      GetSizeIsFinalCursor(l[1..], AlignUp(counter + l[0].size, l[0].align));
    }
  }

  /** Stepping past the component at position k leaves room for it. */
  lemma {:induction false} CursorStep(l: seq<Comp>, counter: nat, k: nat)
    requires Aligned(l) && SizesPadded(l) && k < |l|
    ensures Cursor(l, counter, k + 1) == OffsetAt(l, counter, k) + l[k].size
  {
    if k == 0 {
      AlignUpShift(counter, l[0].size, l[0].align);
    } else {
      assert forall i :: 0 <= i < |l| - 1 ==> l[1..][i] == l[i + 1];
      CursorStep(l[1..], AlignUp(counter + l[0].size, l[0].align), k - 1);
    }
  }

  /** The cursor never moves backwards. */
  lemma {:induction false} CursorMonotone(l: seq<Comp>, counter: nat, i: nat, j: nat)
    requires Aligned(l) && i <= j <= |l|
    ensures Cursor(l, counter, i) <= Cursor(l, counter, j)
  {
    if i > 0 {
      CursorMonotone(l[1..], AlignUp(counter + l[0].size, l[0].align), i - 1, j - 1);
    }
  }

  /** With sizes padded to their alignment, a component placed earlier
      ends before a component placed later begins, and every component
      ends within getSize. */
  lemma {:induction false} PlacementsDisjoint(l: seq<Comp>, counter: nat, i: nat, j: nat)
    requires Aligned(l) && SizesPadded(l) && i < j < |l|
    ensures OffsetAt(l, counter, i) + l[i].size <= OffsetAt(l, counter, j)
  {
    CursorStep(l, counter, i);
    CursorMonotone(l, counter, i + 1, j);
  }

  lemma {:induction false} PlacementWithinSize(l: seq<Comp>, counter: nat, k: nat)
    requires Aligned(l) && SizesPadded(l) && k < |l|
    ensures OffsetAt(l, counter, k) + l[k].size <= GetSize(l, counter)
  {
    CursorStep(l, counter, k);
    CursorMonotone(l, counter, k + 1, |l|);
    GetSizeIsFinalCursor(l, counter);
  }

  /** Two distinct components of a padded layout occupy disjoint byte
      ranges: getOffset<A> + sizeof(A) <= getOffset<B> or the other way. */
  lemma {:induction false} OffsetsDisjoint(l: seq<Comp>, a: nat, b: nat, counter: nat)
    requires Aligned(l) && SizesPadded(l) && Has(l, a) && Has(l, b) && a != b
    ensures var ia, ib := FirstIndex(l, a), FirstIndex(l, b);
            GetOffset(l, a, counter) + l[ia].size <= GetOffset(l, b, counter) ||
            GetOffset(l, b, counter) + l[ib].size <= GetOffset(l, a, counter)
  {
    var ia, ib := FirstIndex(l, a), FirstIndex(l, b);
    GetOffsetIsFirstPlacement(l, a, counter);
    GetOffsetIsFirstPlacement(l, b, counter);
    if ia < ib {
      PlacementsDisjoint(l, counter, ia, ib);
    } else {
      PlacementsDisjoint(l, counter, ib, ia);
    }
  }

  /** Every component present ends within getSize. */
  lemma {:induction false} OffsetWithinSize(l: seq<Comp>, c: nat, counter: nat)
    requires Aligned(l) && SizesPadded(l) && Has(l, c)
    ensures GetOffset(l, c, counter) + l[FirstIndex(l, c)].size <= GetSize(l, counter)
  {
    GetOffsetIsFirstPlacement(l, c, counter);
    PlacementWithinSize(l, counter, FirstIndex(l, c));
  }

  // ---------------------------------------------------------------------
  // for_all / for_any / for_none and the predicate combinators

  /** `for_all<Pred, Tys...>`: conjunction, true on the empty list. */
  function ForAll<T>(p: T -> bool, s: seq<T>): (r: bool)
    ensures r <==> forall i :: 0 <= i < |s| ==> p(s[i])
  {
    if s == [] then true
    else
      assert forall i :: 1 <= i < |s| ==> s[i] == s[1..][i - 1];
      p(s[0]) && ForAll(p, s[1..])
  }

  /** `for_any<Pred, Tys...>`: disjunction, false on the empty list. */
  function ForAny<T>(p: T -> bool, s: seq<T>): (r: bool)
    ensures r <==> exists i :: 0 <= i < |s| && p(s[i])
  {
    if s == [] then false
    else
      assert forall i :: 1 <= i < |s| ==> s[i] == s[1..][i - 1];
      p(s[0]) || ForAny(p, s[1..])
  }

  /** `for_none<Pred, Tys...>`: the negation of for_any. */
  function ForNone<T>(p: T -> bool, s: seq<T>): (r: bool)
    ensures r <==> forall i :: 0 <= i < |s| ==> !p(s[i])
  {
    !ForAny(p, s)
  }

  /** `un<Pred>::neg`. */
  function Neg<T>(p: T -> bool): T -> bool
  {
    x => !p(x)
  }

  /** `bin<Pred1, Pred2>::either`. */
  function Either<T>(p: T -> bool, q: T -> bool): T -> bool
  {
    x => p(x) || q(x)
  }

  /** `bin<Pred1, Pred2>::both`. */
  function Both<T>(p: T -> bool, q: T -> bool): T -> bool
  {
    x => p(x) && q(x)
  }

  /** for_none is for_all of the negated predicate. */
  lemma {:induction false} ForNoneIsForAllNeg<T>(p: T -> bool, s: seq<T>)
    ensures ForNone(p, s) == ForAll(Neg(p), s)
  {
    if s != [] {
      ForNoneIsForAllNeg(p, s[1..]);
      assert ForAny(p, s) == (p(s[0]) || ForAny(p, s[1..]));
      assert ForAll(Neg(p), s) == (Neg(p)(s[0]) && ForAll(Neg(p), s[1..]));
    }
  }

  /** for_all distributes over both. */
  lemma {:induction false} ForAllBoth<T>(p: T -> bool, q: T -> bool, s: seq<T>)
    ensures ForAll(Both(p, q), s) == (ForAll(p, s) && ForAll(q, s))
  {
    if s != [] {
      ForAllBoth(p, q, s[1..]);
      assert ForAll(Both(p, q), s) == (Both(p, q)(s[0]) && ForAll(Both(p, q), s[1..]));
      assert ForAll(p, s) == (p(s[0]) && ForAll(p, s[1..]));
      assert ForAll(q, s) == (q(s[0]) && ForAll(q, s[1..]));
    }
  }

  /** for_any distributes over either. */
  lemma {:induction false} ForAnyEither<T>(p: T -> bool, q: T -> bool, s: seq<T>)
    ensures ForAny(Either(p, q), s) == (ForAny(p, s) || ForAny(q, s))
  {
    if s != [] {
      ForAnyEither(p, q, s[1..]);
      assert ForAny(Either(p, q), s) == (Either(p, q)(s[0]) || ForAny(Either(p, q), s[1..]));
      assert ForAny(p, s) == (p(s[0]) || ForAny(p, s[1..]));
      assert ForAny(q, s) == (q(s[0]) || ForAny(q, s[1..]));
    }
  }
}
