/** Class-hierarchy identifiers (`HierarchyID` in RTTI.h).
    Every type of a hierarchy owns a `Node`. Declaring `Ty` a child of
    `ParentTy` appends Ty's node to the end of the parent's child chain;
    `init` then numbers the nodes reachable from the base type in
    depth-first preorder, giving each one a half-open interval [min, max)
    that covers exactly its subtree, so that `isclassof` is an interval test.
    Types are explicit keys and the static initialisers become calls. */
module RttiHierarchy {

  import Arith

  type TypeKey = nat

  /** The shape of the linked nodes: a node and its children in chain order. */
  datatype Tree = Tree(key: TypeKey, kids: seq<Tree>)

  /** A `Node*`: null, or the node of a type. */
  datatype NodePtr = Nil | Ptr(key: TypeKey)

  // The shape of a sequence of sibling subtrees

  /** Every type appearing in the subtrees. */
  function Keys(f: seq<Tree>): set<TypeKey>
    decreases f
  {
    if f == [] then {} else {f[0].key} + Keys(f[0].kids) + Keys(f[1..])
  }

  /** The number of nodes. */
  function Size(f: seq<Tree>): nat
    decreases f
  {
    if f == [] then 0 else 1 + Size(f[0].kids) + Size(f[1..])
  }

  /** No type occurs twice. */
  predicate Distinct(f: seq<Tree>)
    decreases f
  {
    f == [] ||
    (f[0].key !in Keys(f[0].kids) && f[0].key !in Keys(f[1..]) &&
     Keys(f[0].kids) !! Keys(f[1..]) &&
     Distinct(f[0].kids) && Distinct(f[1..]))
  }

  /** The node a chain starts with. */
  function Head(f: seq<Tree>): NodePtr
  {
    if f == [] then Nil else Ptr(f[0].key)
  }

  /** The subtree rooted at type a, as a one-element sequence, or empty
      when a does not occur. */
  function Sub(f: seq<Tree>, a: TypeKey): (s: seq<Tree>)
    ensures a in Keys(f) ==> |s| == 1 && s[0].key == a
    ensures a !in Keys(f) ==> s == []
    ensures Keys(s) <= Keys(f)
    decreases f
  {
    if f == [] then []
    else if f[0].key == a then [f[0]]
    else if a in Keys(f[0].kids) then Sub(f[0].kids, a)
    else Sub(f[1..], a)
  }

  /** The children of type a, in chain order. */
  function KidsOf(f: seq<Tree>, a: TypeKey): seq<Tree>
  {
    var s := Sub(f, a);
    if s == [] then [] else s[0].kids
  }

  /** b is a or one of its descendants. */
  predicate Descends(f: seq<Tree>, b: TypeKey, a: TypeKey)
  {
    b in Keys(Sub(f, a))
  }

  /** Reference numbering, with unbounded integers: the preorder position
      of k, counted from id. */
  function Pre(f: seq<Tree>, id: nat, k: TypeKey): nat
    requires k in Keys(f)
    decreases f
  {
    if f[0].key == k then id
    else if k in Keys(f[0].kids) then Pre(f[0].kids, id + 1, k)
    else Pre(f[1..], id + 1 + Size(f[0].kids), k)
  }

  /** What `recursiveIDBuilder` leaves behind for a chain: the `min` and
      `max` it wrote for each node (later writes win) and the final counter.
      The counter is an IDTy that wraps at `bound`. */
  datatype Numbering = Numbering(lo: map<TypeKey, nat>, hi: map<TypeKey, nat>, next: nat)

  function Walk(f: seq<Tree>, id: nat, bound: nat): (w: Numbering)
    requires id < bound
    ensures w.next < bound
    decreases f
  {
    if f == [] then Numbering(map[], map[], id)
    else
      var k := Walk(f[0].kids, Arith.Inc(id, bound), bound);
      var r := Walk(f[1..], k.next, bound);
      Numbering((map[f[0].key := id] + k.lo) + r.lo, k.hi[f[0].key := k.next] + r.hi, r.next)
  }

  // Lemmas about the shape and the numbering

  /** Each element's root is one of the keys. */
  lemma {:induction false} ElementKey(f: seq<Tree>, i: nat)
    requires i < |f|
    ensures f[i].key in Keys(f) && Keys(f[i].kids) <= Keys(f)
    decreases f
  {
    if i > 0 {
      ElementKey(f[1..], i - 1);
      assert f[1..][i - 1] == f[i];
    }
  }

  /** Every position lies within [id, id + Size(f)), and so does the
      whole subtree starting there. */
  lemma {:induction false} PreBounds(f: seq<Tree>, id: nat, k: TypeKey)
    requires k in Keys(f)
    ensures id <= Pre(f, id, k)
    ensures Pre(f, id, k) + Size(Sub(f, k)) <= id + Size(f)
    decreases f
  {
    if f[0].key == k {
    } else if k in Keys(f[0].kids) {
      PreBounds(f[0].kids, id + 1, k);
    } else {
      PreBounds(f[1..], id + 1 + Size(f[0].kids), k);
    }
  }

  /** A subtree holds at least its root. */
  lemma SubSize(f: seq<Tree>, k: TypeKey)
    requires k in Keys(f)
    ensures Size(Sub(f, k)) >= 1
  {
    var s := Sub(f, k);
    assert Size(s) == 1 + Size(s[0].kids) + Size(s[1..]);
  }

  /** Distinct types get distinct positions. */
  lemma {:induction false} PreInjective(f: seq<Tree>, id: nat, a: TypeKey, b: TypeKey)
    requires a in Keys(f) && b in Keys(f) && a != b
    ensures Pre(f, id, a) != Pre(f, id, b)
    decreases f
  {
    var t := f[0];
    var id' := id + 1 + Size(t.kids);
    if t.key == a || t.key == b {
      if a in Keys(t.kids) { PreBounds(t.kids, id + 1, a); }
      if b in Keys(t.kids) { PreBounds(t.kids, id + 1, b); }
      if a !in Keys(t.kids) && a != t.key { PreBounds(f[1..], id', a); }
      if b !in Keys(t.kids) && b != t.key { PreBounds(f[1..], id', b); }
    } else if a in Keys(t.kids) && b in Keys(t.kids) {
      PreInjective(t.kids, id + 1, a, b);
    } else if a !in Keys(t.kids) && b !in Keys(t.kids) {
      PreInjective(f[1..], id', a, b);
    } else if a in Keys(t.kids) {
      PreBounds(t.kids, id + 1, a);
      PreBounds(f[1..], id', b);
    } else {
      PreBounds(t.kids, id + 1, b);
      PreBounds(f[1..], id', a);
    }
  }

  /** A descendant's interval lies inside its ancestor's. */
  lemma {:induction false} SubInterval(f: seq<Tree>, id: nat, a: TypeKey, b: TypeKey)
    requires Distinct(f) && a in Keys(f) && Descends(f, b, a)
    ensures Pre(f, id, a) <= Pre(f, id, b)
    ensures Pre(f, id, b) + Size(Sub(f, b)) <= Pre(f, id, a) + Size(Sub(f, a))
    decreases f
  {
    var t := f[0];
    if t.key == a {
      if b != a {
        assert Keys(Sub(f, a)) == {a} + Keys(t.kids) + Keys([t][1..]);
        assert b in Keys(t.kids);
        PreBounds(t.kids, id + 1, b);
      }
    } else if a in Keys(t.kids) {
      SubInterval(t.kids, id + 1, a, b);
    } else {
      SubInterval(f[1..], id + 1 + Size(t.kids), a, b);
    }
  }

  /** A type outside a's subtree has its position outside a's interval. */
  lemma {:induction false} OutsideInterval(f: seq<Tree>, id: nat, a: TypeKey, b: TypeKey)
    requires a in Keys(f) && b in Keys(f) && !Descends(f, b, a)
    ensures !(Pre(f, id, a) <= Pre(f, id, b) < Pre(f, id, a) + Size(Sub(f, a)))
    decreases f
  {
    var t := f[0];
    if t.key == a {
      assert Keys(Sub(f, a)) == {a} + Keys(t.kids) + Keys([t][1..]);
      PreBounds(f[1..], id + 1 + Size(t.kids), b);
    } else if a in Keys(t.kids) {
      OutsideFromKids(f, id, a, b);
    } else {
      OutsideFromRest(f, id, a, b);
    }
  }

  /** OutsideInterval when a lies among the children of the first tree. */
  lemma {:induction false} OutsideFromKids(f: seq<Tree>, id: nat, a: TypeKey, b: TypeKey)
    requires a in Keys(f) && b in Keys(f) && !Descends(f, b, a)
    requires f[0].key != a && a in Keys(f[0].kids)
    ensures !(Pre(f, id, a) <= Pre(f, id, b) < Pre(f, id, a) + Size(Sub(f, a)))
    decreases f, 0
  {
    var t := f[0];
    var pa := Pre(t.kids, id + 1, a);
    assert Pre(f, id, a) == pa && Sub(f, a) == Sub(t.kids, a);
    if b == t.key {
      PreBounds(t.kids, id + 1, a);
    } else if b in Keys(t.kids) {
      OutsideInterval(t.kids, id + 1, a, b);
    } else {
      PreBounds(t.kids, id + 1, a);
      PreBounds(f[1..], id + 1 + Size(t.kids), b);
    }
  }

  /** OutsideInterval when a lies in the later trees. */
  lemma {:induction false} OutsideFromRest(f: seq<Tree>, id: nat, a: TypeKey, b: TypeKey)
    requires a in Keys(f) && b in Keys(f) && !Descends(f, b, a)
    requires f[0].key != a && a !in Keys(f[0].kids)
    ensures !(Pre(f, id, a) <= Pre(f, id, b) < Pre(f, id, a) + Size(Sub(f, a)))
    decreases f, 0
  {
    var t := f[0];
    var id' := id + 1 + Size(t.kids);
    assert Pre(f, id, a) == Pre(f[1..], id', a) && Sub(f, a) == Sub(f[1..], a);
    PreBounds(f[1..], id', a);
    if b == t.key {
    } else if b in Keys(t.kids) {
      PreBounds(t.kids, id + 1, b);
      SubSize(t.kids, b);
    } else {
      OutsideInterval(f[1..], id', a, b);
    }
  }

  /** Inside a's subtree, positions and subtrees are those of the subtree
      numbered from a's own position. */
  lemma {:induction false} PreInSub(f: seq<Tree>, id: nat, a: TypeKey, b: TypeKey)
    requires Distinct(f) && a in Keys(f) && Descends(f, b, a)
    ensures Pre(f, id, b) == Pre(Sub(f, a), Pre(f, id, a), b)
    ensures Sub(f, b) == Sub(Sub(f, a), b)
    decreases f
  {
    var t := f[0];
    if t.key == a {
      assert Sub(f, a) == [t];
      assert Keys([t]) == {a} + Keys(t.kids) + Keys([t][1..]);
      assert [t][0] == t;
    } else if a in Keys(t.kids) {
      PreInSub(t.kids, id + 1, a, b);
    } else {
      PreInSub(f[1..], id + 1 + Size(t.kids), a, b);
    }
  }

  /** Sibling subtrees follow each other in chain order without overlap. */
  lemma {:induction false} SiblingsOrdered(ks: seq<Tree>, id: nat, i: nat, j: nat)
    requires Distinct(ks) && i < j < |ks|
    ensures ks[i].key in Keys(ks) && ks[j].key in Keys(ks)
    ensures Pre(ks, id, ks[i].key) + Size(Sub(ks, ks[i].key)) <= Pre(ks, id, ks[j].key)
    decreases ks
  {
    var t := ks[0];
    var id' := id + 1 + Size(t.kids);
    ElementKey(ks, i);
    ElementKey(ks, j);
    ElementKey(ks[1..], j - 1);
    assert ks[1..][j - 1] == ks[j];
    if i == 0 {
      PreBounds(ks[1..], id', ks[j].key);
    } else {
      ElementKey(ks[1..], i - 1);
      assert ks[1..][i - 1] == ks[i];
      SiblingsOrdered(ks[1..], id', i - 1, j - 1);
    }
  }

  /** The walk writes `min` and `max` for exactly the nodes of the chain. */
  lemma {:induction false} WalkKeys(f: seq<Tree>, id: nat, bound: nat)
    requires id < bound
    ensures Walk(f, id, bound).lo.Keys == Keys(f)
    ensures Walk(f, id, bound).hi.Keys == Keys(f)
    decreases f
  {
    if f != [] {
      var t := f[0];
      var k := Walk(t.kids, Arith.Inc(id, bound), bound);
      var r := Walk(f[1..], k.next, bound);
      WalkKeys(t.kids, Arith.Inc(id, bound), bound);
      WalkKeys(f[1..], k.next, bound);
      var w := Walk(f, id, bound);
      assert w.lo == (map[t.key := id] + k.lo) + r.lo;
      assert w.hi == k.hi[t.key := k.next] + r.hi;
      assert w.lo.Keys == {t.key} + k.lo.Keys + r.lo.Keys;
      assert w.hi.Keys == {t.key} + k.hi.Keys + r.hi.Keys;
    }
  }

  /** Without wrap-around the counter ends at id + Size(f). */
  lemma {:induction false} WalkNext(f: seq<Tree>, id: nat, bound: nat)
    requires id + Size(f) < bound
    ensures Walk(f, id, bound).next == id + Size(f)
    decreases f
  {
    if f != [] {
      var t, rest := f[0], f[1..];
      assert Size(f) == 1 + Size(t.kids) + Size(rest);
      var i := Arith.Inc(id, bound);
      assert i == id + 1;
      WalkNext(t.kids, i, bound);
      var n := Walk(t.kids, i, bound).next;
      WalkNext(rest, n, bound);
    }
  }

  /** The walk of a non-empty chain numbers its first node, then the
      first node's children, then the later siblings. */
  lemma WalkUnfold(f: seq<Tree>, id: nat, bound: nat)
    requires f != [] && id < bound
    ensures var k := Walk(f[0].kids, Arith.Inc(id, bound), bound);
      var r := Walk(f[1..], k.next, bound);
      Walk(f, id, bound).lo == (map[f[0].key := id] + k.lo) + r.lo &&
      Walk(f, id, bound).hi == k.hi[f[0].key := k.next] + r.hi
  {
  }

  /** The first node of a chain gets the chain's start as `min` and the
      counter after its children as `max`. */
  lemma WalkAtHead(f: seq<Tree>, id: nat, bound: nat)
    requires f != [] && Distinct(f) && id < bound
    ensures var k := Walk(f[0].kids, Arith.Inc(id, bound), bound);
      f[0].key in Walk(f, id, bound).lo && Walk(f, id, bound).lo[f[0].key] == id &&
      f[0].key in Walk(f, id, bound).hi && Walk(f, id, bound).hi[f[0].key] == k.next
  {
    var k := Walk(f[0].kids, Arith.Inc(id, bound), bound);
    WalkKeys(f[0].kids, Arith.Inc(id, bound), bound);
    WalkKeys(f[1..], k.next, bound);
    WalkUnfold(f, id, bound);
  }

  /** A node among the first node's children keeps the numbers the walk of
      the children gives it. */
  lemma WalkInKids(f: seq<Tree>, id: nat, bound: nat, x: TypeKey)
    requires f != [] && Distinct(f) && id < bound
    requires x in Keys(f[0].kids)
    ensures var k := Walk(f[0].kids, Arith.Inc(id, bound), bound);
      x in k.lo && x in k.hi &&
      x in Walk(f, id, bound).lo && Walk(f, id, bound).lo[x] == k.lo[x] &&
      x in Walk(f, id, bound).hi && Walk(f, id, bound).hi[x] == k.hi[x]
  {
    var k := Walk(f[0].kids, Arith.Inc(id, bound), bound);
    WalkKeys(f[0].kids, Arith.Inc(id, bound), bound);
    WalkKeys(f[1..], k.next, bound);
    WalkUnfold(f, id, bound);
  }

  /** A node among the later siblings keeps the numbers the walk of those
      siblings gives it. */
  lemma WalkInRest(f: seq<Tree>, id: nat, bound: nat, x: TypeKey)
    requires f != [] && id < bound
    requires x != f[0].key && x !in Keys(f[0].kids) && x in Keys(f)
    ensures var k := Walk(f[0].kids, Arith.Inc(id, bound), bound);
      var r := Walk(f[1..], k.next, bound);
      x in Keys(f[1..]) && x in r.lo && x in r.hi &&
      x in Walk(f, id, bound).lo && Walk(f, id, bound).lo[x] == r.lo[x] &&
      x in Walk(f, id, bound).hi && Walk(f, id, bound).hi[x] == r.hi[x]
  {
    var k := Walk(f[0].kids, Arith.Inc(id, bound), bound);
    WalkKeys(f[1..], k.next, bound);
    WalkUnfold(f, id, bound);
  }

  /** Without wrap-around, the walk gives node x its preorder position as
      `min` and the end of its subtree as `max`. */
  lemma {:induction false} WalkAt(f: seq<Tree>, id: nat, bound: nat, x: TypeKey)
    requires Distinct(f) && id + Size(f) < bound && x in Keys(f)
    ensures x in Walk(f, id, bound).lo && x in Walk(f, id, bound).hi
    ensures Walk(f, id, bound).lo[x] == Pre(f, id, x)
    ensures Walk(f, id, bound).hi[x] == Pre(f, id, x) + Size(Sub(f, x))
    decreases f
  {
    var t, rest := f[0], f[1..];
    assert Size(f) == 1 + Size(t.kids) + Size(rest);
    var i := Arith.Inc(id, bound);
    assert i == id + 1;
    WalkNext(t.kids, i, bound);
    var n := Walk(t.kids, i, bound).next;
    assert n == id + 1 + Size(t.kids);
    if x == t.key {
      WalkAtHead(f, id, bound);
      assert Sub(f, x) == [t];
      assert Size([t]) == 1 + Size(t.kids) + Size([t][1..]);
    } else if x in Keys(t.kids) {
      assert Pre(f, id, x) == Pre(t.kids, i, x) && Sub(f, x) == Sub(t.kids, x);
      WalkInKids(f, id, bound, x);
      WalkAt(t.kids, i, bound, x);
    } else {
      assert Pre(f, id, x) == Pre(rest, n, x) && Sub(f, x) == Sub(rest, x);
      WalkInRest(f, id, bound, x);
      WalkAt(rest, n, bound, x);
    }
  }

  // The links of the nodes

  /** `graph.child` and `graph.next` of every node. A missing entry is a
      null pointer: the nodes are zero-initialised statics. */
  datatype Links = Links(child: map<TypeKey, NodePtr>, next: map<TypeKey, NodePtr>)

  function Link(m: map<TypeKey, NodePtr>, k: TypeKey): NodePtr
  {
    if k in m then m[k] else Nil
  }

  /** The links spell out the subtrees f: each node's child pointer is its
      first child; each node's next pointer is its next sibling, the last
      sibling's is null, and at the top level (`top`) every node's next
      pointer is null, because those nodes have no parent yet. */
  predicate Linked(g: Links, f: seq<Tree>, top: bool)
    decreases f
  {
    f == [] ||
    (Link(g.next, f[0].key) == (if top then Nil else Head(f[1..])) &&
     Link(g.child, f[0].key) == Head(f[0].kids) &&
     Linked(g, f[0].kids, false) && Linked(g, f[1..], top))
  }

  /** A `Node**` of buildGraph: the child field or the next field of a node. */
  datatype Slot = ChildSlot(owner: TypeKey) | NextSlot(owner: TypeKey)

  /** `*addr`. */
  function Deref(g: Links, s: Slot): NodePtr
  {
    match s
    case ChildSlot(o) => Link(g.child, o)
    case NextSlot(o) => Link(g.next, o)
  }

  /** `*addr = self`. */
  function Store(g: Links, s: Slot, c: TypeKey): (g': Links)
    ensures Deref(g', s) == Ptr(c)
  {
    match s
    case ChildSlot(o) => Links(g.child[o := Ptr(c)], g.next)
    case NextSlot(o) => Links(g.child, g.next[o := Ptr(c)])
  }

  /** The null field at the end of p's child chain: p's own child field
      when it has no children, else the next field of its last child. */
  function EndSlot(p: TypeKey, ks: seq<Tree>): Slot
  {
    if ks == [] then ChildSlot(p) else NextSlot(ks[|ks| - 1].key)
  }

  /** The shape after appending ct to the children of p. */
  function AddChild(f: seq<Tree>, p: TypeKey, ct: Tree): seq<Tree>
    decreases f
  {
    if f == [] then []
    else
      var t := f[0];
      [if t.key == p then Tree(p, t.kids + [ct]) else Tree(t.key, AddChild(t.kids, p, ct))] +
      AddChild(f[1..], p, ct)
  }

  // Lemmas about the shape under concatenation and appending

  lemma {:induction false} KeysAppend(a: seq<Tree>, b: seq<Tree>)
    ensures Keys(a + b) == Keys(a) + Keys(b)
    decreases a
  {
    if a == [] {
      assert a + b == b;
    } else {
      assert (a + b)[0] == a[0] && (a + b)[1..] == a[1..] + b;
      KeysAppend(a[1..], b);
    }
  }

  lemma {:induction false} DistinctAppend(a: seq<Tree>, b: seq<Tree>)
    ensures Distinct(a + b) <==> Distinct(a) && Distinct(b) && Keys(a) !! Keys(b)
    decreases a
  {
    if a == [] {
      assert a + b == b;
    } else {
      assert (a + b)[0] == a[0] && (a + b)[1..] == a[1..] + b;
      KeysAppend(a[1..], b);
      DistinctAppend(a[1..], b);
    }
  }

  lemma {:induction false} LinkedAppend(g: Links, a: seq<Tree>, b: seq<Tree>)
    ensures Linked(g, a + b, true) <==> Linked(g, a, true) && Linked(g, b, true)
    decreases a
  {
    if a == [] {
      assert a + b == b;
    } else {
      assert (a + b)[0] == a[0] && (a + b)[1..] == a[1..] + b;
      LinkedAppend(g, a[1..], b);
    }
  }

  lemma {:induction false} SubAppend(a: seq<Tree>, b: seq<Tree>, k: TypeKey)
    ensures Sub(a + b, k) == if k in Keys(a) then Sub(a, k) else Sub(b, k)
    decreases a
  {
    if a == [] {
      assert a + b == b;
    } else {
      assert (a + b)[0] == a[0] && (a + b)[1..] == a[1..] + b;
      SubAppend(a[1..], b, k);
    }
  }

  lemma {:induction false} DistinctSub(f: seq<Tree>, k: TypeKey)
    requires Distinct(f)
    ensures Distinct(Sub(f, k))
    decreases f
  {
    if f != [] {
      if f[0].key == k {
        assert Distinct([f[0]][1..]);
      } else if k in Keys(f[0].kids) {
        DistinctSub(f[0].kids, k);
      } else {
        DistinctSub(f[1..], k);
      }
    }
  }

  lemma {:induction false} AddChildAbsent(f: seq<Tree>, p: TypeKey, ct: Tree)
    requires p !in Keys(f)
    ensures AddChild(f, p, ct) == f
    decreases f
  {
    if f != [] {
      AddChildAbsent(f[0].kids, p, ct);
      AddChildAbsent(f[1..], p, ct);
    }
  }

  /** Appending a child keeps the roots of the chain. */
  lemma AddChildHead(f: seq<Tree>, p: TypeKey, ct: Tree)
    ensures |AddChild(f, p, ct)| == |f|
    ensures Head(AddChild(f, p, ct)) == Head(f)
    ensures f != [] ==> AddChild(f, p, ct)[0].key == f[0].key
  {
  }

  lemma {:induction false} AddChildKeys(f: seq<Tree>, p: TypeKey, ct: Tree)
    requires p in Keys(f)
    ensures Keys(AddChild(f, p, ct)) == Keys(f) + Keys([ct])
    decreases f
  {
    var t := f[0];
    var r := AddChild(f, p, ct);
    assert r[1..] == AddChild(f[1..], p, ct);
    if t.key == p {
      KeysAppend(t.kids, [ct]);
    } else if p in Keys(t.kids) {
      AddChildKeys(t.kids, p, ct);
    }
    if p in Keys(f[1..]) {
      AddChildKeys(f[1..], p, ct);
    } else {
      AddChildAbsent(f[1..], p, ct);
    }
    if t.key != p && p !in Keys(t.kids) {
      AddChildAbsent(t.kids, p, ct);
    }
  }

  lemma {:induction false} AddChildDistinct(f: seq<Tree>, p: TypeKey, ct: Tree)
    requires Distinct(f) && p in Keys(f) && Distinct([ct]) && Keys([ct]) !! Keys(f)
    ensures Distinct(AddChild(f, p, ct))
    decreases f
  {
    var t := f[0];
    var r := AddChild(f, p, ct);
    assert r[1..] == AddChild(f[1..], p, ct);
    if t.key == p {
      DistinctAppend(t.kids, [ct]);
      KeysAppend(t.kids, [ct]);
      AddChildAbsent(f[1..], p, ct);
    } else if p in Keys(t.kids) {
      AddChildDistinct(t.kids, p, ct);
      AddChildKeys(t.kids, p, ct);
      AddChildAbsent(f[1..], p, ct);
    } else {
      AddChildAbsent(t.kids, p, ct);
      AddChildDistinct(f[1..], p, ct);
      AddChildKeys(f[1..], p, ct);
    }
  }

  /** The new child lands at the end of p's children. */
  lemma {:induction false} AddChildKids(f: seq<Tree>, p: TypeKey, ct: Tree)
    requires Distinct(f) && p in Keys(f)
    ensures KidsOf(AddChild(f, p, ct), p) == KidsOf(f, p) + [ct]
    decreases f
  {
    var t := f[0];
    var r := AddChild(f, p, ct);
    assert r[1..] == AddChild(f[1..], p, ct);
    if t.key == p {
    } else if p in Keys(t.kids) {
      AddChildKids(t.kids, p, ct);
      AddChildKeys(t.kids, p, ct);
    } else {
      AddChildAbsent(t.kids, p, ct);
      AddChildKids(f[1..], p, ct);
    }
  }

  // Lemmas about the links

  /** A write to a field of a node outside f leaves f's links intact. */
  lemma {:induction false} LinkedFrame(g: Links, f: seq<Tree>, top: bool, s: Slot, c: TypeKey)
    requires Linked(g, f, top) && s.owner !in Keys(f)
    ensures Linked(Store(g, s, c), f, top)
    decreases f
  {
    if f != [] {
      LinkedFrame(g, f[0].kids, false, s, c);
      LinkedFrame(g, f[1..], top, s, c);
    }
  }

  /** A single node works the same at the top level and as a last child. */
  lemma LinkedSingle(g: Links, t: Tree)
    ensures Linked(g, [t], true) <==> Linked(g, [t], false)
  {
    assert [t][1..] == [];
  }

  /** Following next pointers from the first child visits p's children in
      order. */
  lemma {:induction false} LinkedSiblings(g: Links, ks: seq<Tree>, i: nat)
    requires Linked(g, ks, false) && i < |ks|
    ensures Link(g.next, ks[i].key) == Head(ks[i + 1..])
    decreases ks
  {
    if i > 0 {
      LinkedSiblings(g, ks[1..], i - 1);
      assert ks[1..][i - 1] == ks[i] && ks[1..][i..] == ks[i + 1..];
    }
  }

  /** The child pointer of p leads to p's children, which are linked. */
  lemma {:induction false} LinkedKids(g: Links, f: seq<Tree>, top: bool, p: TypeKey)
    requires Linked(g, f, top) && p in Keys(f)
    ensures Link(g.child, p) == Head(KidsOf(f, p))
    ensures Linked(g, KidsOf(f, p), false)
    decreases f
  {
    if f[0].key == p {
    } else if p in Keys(f[0].kids) {
      LinkedKids(g, f[0].kids, false, p);
    } else {
      LinkedKids(g, f[1..], top, p);
    }
  }

  /** The slot buildGraph writes belongs to p or to one of its children. */
  lemma EndSlotOwner(f: seq<Tree>, p: TypeKey)
    requires p in Keys(f)
    ensures EndSlot(p, KidsOf(f, p)).owner in Keys(Sub(f, p))
  {
    var ks := KidsOf(f, p);
    var t := Sub(f, p)[0];
    assert Keys(Sub(f, p)) == {p} + Keys(ks) + Keys([t][1..]);
    if ks != [] {
      ElementKey(ks, |ks| - 1);
    }
  }

  /** Appending a sibling after the last one of a non-empty chain. */
  lemma {:induction false} SiblingAppend(g: Links, ks: seq<Tree>, ct: Tree)
    requires ks != [] && Linked(g, ks, false) && Linked(g, [ct], false)
    requires Distinct(ks) && Keys([ct]) !! Keys(ks)
    ensures Linked(Store(g, NextSlot(ks[|ks| - 1].key), ct.key), ks + [ct], false)
    decreases ks
  {
    var s := NextSlot(ks[|ks| - 1].key);
    var g' := Store(g, s, ct.key);
    var k0 := ks[0];
    var tail := ks[1..];
    ElementKey(ks, |ks| - 1);
    assert (ks + [ct])[0] == k0 && (ks + [ct])[1..] == tail + [ct];
    if tail == [] {
      assert ks == [k0];
      LinkedFrame(g, k0.kids, false, s, ct.key);
      LinkedFrame(g, [ct], false, s, ct.key);
    } else {
      assert tail[|tail| - 1] == ks[|ks| - 1];
      ElementKey(tail, |tail| - 1);
      LinkedFrame(g, k0.kids, false, s, ct.key);
      SiblingAppend(g, tail, ct);
    }
  }

  /** buildGraph's write keeps the links in step with the shape: storing
      ct's node in the end slot of p's chain links exactly AddChild. */
  lemma {:induction false} LinkedAttach(g: Links, f: seq<Tree>, top: bool, p: TypeKey, ct: Tree)
    requires Linked(g, f, top) && Distinct(f) && p in Keys(f)
    requires Linked(g, [ct], false) && Distinct([ct]) && Keys([ct]) !! Keys(f)
    ensures Linked(Store(g, EndSlot(p, KidsOf(f, p)), ct.key), AddChild(f, p, ct), top)
    decreases f
  {
    var s := EndSlot(p, KidsOf(f, p));
    var g' := Store(g, s, ct.key);
    var t := f[0];
    var r := AddChild(f, p, ct);
    assert r[1..] == AddChild(f[1..], p, ct);
    EndSlotOwner(f, p);
    if t.key == p {
      AddChildAbsent(f[1..], p, ct);
      LinkedFrame(g, f[1..], top, s, ct.key);
      if t.kids == [] {
        assert t.kids + [ct] == [ct];
        LinkedFrame(g, [ct], false, s, ct.key);
      } else {
        SiblingAppend(g, t.kids, ct);
        ElementKey(t.kids, |t.kids| - 1);
      }
    } else if p in Keys(t.kids) {
      AddChildAbsent(f[1..], p, ct);
      LinkedFrame(g, f[1..], top, s, ct.key);
      LinkedAttach(g, t.kids, false, p, ct);
      AddChildHead(t.kids, p, ct);
    } else {
      AddChildAbsent(t.kids, p, ct);
      LinkedFrame(g, t.kids, false, s, ct.key);
      LinkedAttach(g, f[1..], top, p, ct);
      AddChildHead(f[1..], p, ct);
    }
  }

  // The forest of declared nodes

  /** Where the top-level tree rooted at c sits, or |tops| when there is
      none. */
  function FindTop(tops: seq<Tree>, c: TypeKey): (j: nat)
    ensures j <= |tops|
    ensures j < |tops| ==> tops[j].key == c
    ensures j == |tops| ==> forall i :: 0 <= i < |tops| ==> tops[i].key != c
    decreases tops
  {
    if tops == [] then 0
    else if tops[0].key == c then 0
    else
      var j := FindTop(tops[1..], c);
      assert forall i :: 0 < i < |tops| ==> tops[i] == tops[1..][i - 1];
      1 + j
  }

  /** c has not been given a parent yet: its node, if any, is at the top. */
  predicate Unparented(tops: seq<Tree>, c: TypeKey)
  {
    c !in Keys(tops) || FindTop(tops, c) < |tops|
  }

  /** The subtree c brings along when it is declared a child. */
  function Detached(tops: seq<Tree>, c: TypeKey): Tree
  {
    var j := FindTop(tops, c);
    if j < |tops| then tops[j] else Tree(c, [])
  }

  /** A type without a node yet can be declared under any other type: it
      brings a single node along. */
  lemma FreshAttachable(tops: seq<Tree>, c: TypeKey, p: TypeKey)
    requires |tops| > 0 && tops[0].key != c && c !in Keys(tops) && p != c
    ensures Detached(tops, c) == Tree(c, [])
    ensures Attachable(tops, c, p)
  {
    var j := FindTop(tops, c);
    if j < |tops| {
      ElementKey(tops, j);
    }
    assert Keys([Tree(c, [])]) == {c} + Keys([]) + Keys([Tree(c, [])][1..]);
  }

  /** The other top-level trees. */
  function Others(tops: seq<Tree>, c: TypeKey): seq<Tree>
  {
    var j := FindTop(tops, c);
    if j < |tops| then tops[..j] + tops[j + 1..] else tops
  }

  /** The forest after c is declared a child of p: c's tree is appended to
      p's children, and a p that has no node yet becomes a new top. */
  function Declared(tops: seq<Tree>, c: TypeKey, p: TypeKey): seq<Tree>
  {
    var ct := Detached(tops, c);
    var rest := Others(tops, c);
    if p in Keys(rest) then AddChild(rest, p, ct) else rest + [Tree(p, [ct])]
  }

  /** Declaring c a child of p keeps a forest with root's tree first: c is
      not root, has no parent yet, and p is not in c's subtree. */
  predicate Attachable(tops: seq<Tree>, c: TypeKey, p: TypeKey)
  {
    |tops| > 0 && tops[0].key != c && Unparented(tops, c) && p !in Keys([Detached(tops, c)])
  }

  /** The invariant of the node graph: the forest has no repeated node, the
      links spell it out, and only its nodes have links. */
  predicate GraphOk(g: Links, tops: seq<Tree>)
  {
    Distinct(tops) && Linked(g, tops, true) &&
    g.child.Keys <= Keys(tops) && g.next.Keys <= Keys(tops)
  }

  /** Taking c's tree out of the forest loses no node. */
  lemma DetachKeys(tops: seq<Tree>, c: TypeKey)
    requires Unparented(tops, c)
    ensures Keys(Others(tops, c)) + Keys([Detached(tops, c)]) == Keys(tops) + {c}
    ensures Detached(tops, c).key == c
  {
    var j := FindTop(tops, c);
    var ct := Detached(tops, c);
    if j < |tops| {
      var a, b := tops[..j], tops[j + 1..];
      assert tops == a + ([ct] + b);
      KeysAppend(a, [ct] + b);
      KeysAppend([ct], b);
      KeysAppend(a, b);
    } else {
      assert Keys([ct]) == {c} + Keys([]) + Keys([ct][1..]);
    }
  }

  /** Taking c's tree out of a forest without repeats leaves two
      forests without repeats and with no node in common. */
  lemma DetachDistinct(tops: seq<Tree>, c: TypeKey)
    requires Distinct(tops) && Unparented(tops, c)
    ensures Distinct(Others(tops, c)) && Distinct([Detached(tops, c)])
    ensures Keys([Detached(tops, c)]) !! Keys(Others(tops, c))
  {
    var j := FindTop(tops, c);
    var ct := Detached(tops, c);
    if j < |tops| {
      var a, b := tops[..j], tops[j + 1..];
      assert tops == a + ([ct] + b);
      KeysAppend(a, [ct] + b);
      KeysAppend([ct], b);
      KeysAppend(a, b);
      DistinctAppend(a, [ct] + b);
      DistinctAppend([ct], b);
      DistinctAppend(a, b);
    } else {
      assert Keys([ct]) == {c} + Keys([]) + Keys([ct][1..]);
    }
  }

  /** The links still spell out both parts after c's tree is taken out. */
  lemma DetachLinked(g: Links, tops: seq<Tree>, c: TypeKey)
    requires GraphOk(g, tops) && Unparented(tops, c)
    ensures Linked(g, Others(tops, c), true) && Linked(g, [Detached(tops, c)], false)
  {
    var j := FindTop(tops, c);
    var ct := Detached(tops, c);
    if j < |tops| {
      var a, b := tops[..j], tops[j + 1..];
      assert tops == a + ([ct] + b);
      LinkedAppend(g, a, [ct] + b);
      LinkedAppend(g, [ct], b);
      LinkedAppend(g, a, b);
      LinkedSingle(g, ct);
    } else {
      assert c !in g.child && c !in g.next && [ct][1..] == [];
    }
  }

  /** A node outside c's tree keeps its subtree, and the first tree stays
      first unless it is c's. */
  lemma DetachOthers(tops: seq<Tree>, c: TypeKey, p: TypeKey)
    requires Unparented(tops, c)
    ensures p !in Keys([Detached(tops, c)]) ==> Sub(tops, p) == Sub(Others(tops, c), p)
    ensures |tops| > 0 && tops[0].key != c ==> |Others(tops, c)| > 0 && Others(tops, c)[0] == tops[0]
  {
    var j := FindTop(tops, c);
    var ct := Detached(tops, c);
    if j < |tops| {
      var a, b := tops[..j], tops[j + 1..];
      assert tops == a + ([ct] + b);
      SubAppend(a, [ct] + b, p);
      SubAppend([ct], b, p);
      SubAppend(a, b, p);
      if tops[0].key != c {
        assert j > 0 && (a + b)[0] == a[0];
      }
    }
  }

  /** Taking c's tree out of the forest. */
  lemma Detach(g: Links, tops: seq<Tree>, c: TypeKey, p: TypeKey)
    requires GraphOk(g, tops) && Unparented(tops, c)
    ensures Keys(Others(tops, c)) + Keys([Detached(tops, c)]) == Keys(tops) + {c}
    ensures Distinct(Others(tops, c)) && Distinct([Detached(tops, c)])
    ensures Keys([Detached(tops, c)]) !! Keys(Others(tops, c))
    ensures Linked(g, Others(tops, c), true) && Linked(g, [Detached(tops, c)], false)
    ensures Detached(tops, c).key == c
    ensures p !in Keys([Detached(tops, c)]) ==> Sub(tops, p) == Sub(Others(tops, c), p)
    ensures |tops| > 0 && tops[0].key != c ==> |Others(tops, c)| > 0 && Others(tops, c)[0] == tops[0]
  {
    DetachKeys(tops, c);
    DetachDistinct(tops, c);
    DetachLinked(g, tops, c);
    DetachOthers(tops, c, p);
  }

  /** Appending a child inside the first tree only. */
  lemma AddChildFirst(f: seq<Tree>, p: TypeKey, ct: Tree)
    requires f != []
    ensures AddChild([f[0]], p, ct) == [AddChild(f, p, ct)[0]]
  {
    assert [f[0]][0] == f[0] && [f[0]][1..] == [];
  }

  /** buildGraph when p already has a node: c's tree goes under p. */
  lemma DeclareUnder(g: Links, rest: seq<Tree>, ct: Tree, p: TypeKey)
    requires Distinct(rest) && Linked(g, rest, true) && rest != [] && p in Keys(rest)
    requires Distinct([ct]) && Linked(g, [ct], false) && Keys([ct]) !! Keys(rest)
    requires g.child.Keys <= Keys(rest) + Keys([ct]) && g.next.Keys <= Keys(rest) + Keys([ct])
    ensures GraphOk(Store(g, EndSlot(p, KidsOf(rest, p)), ct.key), AddChild(rest, p, ct))
    ensures Keys(AddChild(rest, p, ct)) == Keys(rest) + Keys([ct])
    ensures KidsOf(AddChild(rest, p, ct), p) == KidsOf(rest, p) + [ct]
    ensures |AddChild(rest, p, ct)| > 0 && AddChild(rest, p, ct)[0].key == rest[0].key
    ensures p in Keys([rest[0]]) ==>
              Keys([AddChild(rest, p, ct)[0]]) == Keys([rest[0]]) + Keys([ct])
    ensures p !in Keys([rest[0]]) ==> AddChild(rest, p, ct)[0] == rest[0]
  {
    LinkedAttach(g, rest, true, p, ct);
    AddChildDistinct(rest, p, ct);
    AddChildKeys(rest, p, ct);
    AddChildKids(rest, p, ct);
    EndSlotOwner(rest, p);
    AddChildHead(rest, p, ct);
    AddChildFirst(rest, p, ct);
    if p in Keys([rest[0]]) {
      AddChildKeys([rest[0]], p, ct);
    } else {
      AddChildAbsent([rest[0]], p, ct);
    }
  }

  /** buildGraph when p has no node yet: p becomes a new top with c's tree
      as its only child. */
  lemma DeclareTop(g: Links, rest: seq<Tree>, ct: Tree, p: TypeKey)
    requires Distinct(rest) && Linked(g, rest, true) && p !in Keys(rest)
    requires Distinct([ct]) && Linked(g, [ct], false) && Keys([ct]) !! Keys(rest)
    requires p !in Keys([ct])
    requires g.child.Keys <= Keys(rest) + Keys([ct]) && g.next.Keys <= Keys(rest) + Keys([ct])
    ensures GraphOk(Store(g, ChildSlot(p), ct.key), rest + [Tree(p, [ct])])
    ensures Keys(rest + [Tree(p, [ct])]) == Keys(rest) + Keys([ct]) + {p}
    ensures KidsOf(rest + [Tree(p, [ct])], p) == [ct]
    ensures rest != [] ==> (rest + [Tree(p, [ct])])[0] == rest[0]
  {
    var s := ChildSlot(p);
    var g' := Store(g, s, ct.key);
    var nt := Tree(p, [ct]);
    LinkedFrame(g, rest, true, s, ct.key);
    LinkedFrame(g, [ct], false, s, ct.key);
    assert [nt][1..] == [] && [ct][1..] == [];
    assert Linked(g', [nt], true);
    LinkedAppend(g', rest, [nt]);
    assert Keys([nt]) == {p} + Keys([ct]) + Keys([nt][1..]);
    KeysAppend(rest, [nt]);
    DistinctAppend(rest, [nt]);
    SubAppend(rest, [nt], p);
    if rest != [] {
      assert (rest + [nt])[0] == rest[0];
    }
  }

  /** buildGraph keeps the graph invariant: the forest with c's tree
      appended to p's children is what the links spell out after the one
      write, and the base type stays first. */
  lemma DeclareOk(g: Links, tops: seq<Tree>, c: TypeKey, p: TypeKey)
    requires GraphOk(g, tops) && |tops| > 0 && tops[0].key != c
    requires Unparented(tops, c) && p !in Keys([Detached(tops, c)])
    ensures GraphOk(Store(g, EndSlot(p, KidsOf(tops, p)), c), Declared(tops, c, p))
    ensures |Declared(tops, c, p)| > 0 && Declared(tops, c, p)[0].key == tops[0].key
  {
    Detach(g, tops, c, p);
    var ct := Detached(tops, c);
    var rest := Others(tops, c);
    assert KidsOf(tops, p) == KidsOf(rest, p);
    if p in Keys(rest) {
      assert Declared(tops, c, p) == AddChild(rest, p, ct);
      DeclareUnder(g, rest, ct, p);
    } else {
      assert Declared(tops, c, p) == rest + [Tree(p, [ct])];
      assert KidsOf(tops, p) == [];
      DeclareTop(g, rest, ct, p);
    }
  }

  /** buildGraph adds exactly c and p to the nodes of the forest. */
  lemma DeclareKeys(g: Links, tops: seq<Tree>, c: TypeKey, p: TypeKey)
    requires GraphOk(g, tops) && |tops| > 0 && tops[0].key != c
    requires Unparented(tops, c) && p !in Keys([Detached(tops, c)])
    ensures Keys(Declared(tops, c, p)) == Keys(tops) + {c, p}
  {
    DetachKeys(tops, c);
    var ct := Detached(tops, c);
    var rest := Others(tops, c);
    if p in Keys(rest) {
      assert Declared(tops, c, p) == AddChild(rest, p, ct);
      AddChildKeys(rest, p, ct);
    } else {
      var nt := Tree(p, [ct]);
      assert Declared(tops, c, p) == rest + [nt];
      assert Keys([nt]) == {p} + Keys([ct]) + Keys([nt][1..]);
      KeysAppend(rest, [nt]);
    }
  }

  /** buildGraph makes c's tree the last child of p. */
  lemma DeclareKids(g: Links, tops: seq<Tree>, c: TypeKey, p: TypeKey)
    requires GraphOk(g, tops) && |tops| > 0 && tops[0].key != c
    requires Unparented(tops, c) && p !in Keys([Detached(tops, c)])
    ensures KidsOf(Declared(tops, c, p), p) == KidsOf(tops, p) + [Detached(tops, c)]
  {
    Detach(g, tops, c, p);
    var ct := Detached(tops, c);
    var rest := Others(tops, c);
    assert KidsOf(tops, p) == KidsOf(rest, p);
    if p in Keys(rest) {
      assert Declared(tops, c, p) == AddChild(rest, p, ct);
      AddChildKids(rest, p, ct);
    } else {
      var nt := Tree(p, [ct]);
      assert Declared(tops, c, p) == rest + [nt];
      assert KidsOf(tops, p) == [];
      SubAppend(rest, [nt], p);
    }
  }

  /** The base type's tree gains c's tree exactly when p is in it. */
  lemma DeclareRoot(g: Links, tops: seq<Tree>, c: TypeKey, p: TypeKey)
    requires GraphOk(g, tops) && |tops| > 0 && tops[0].key != c
    requires Unparented(tops, c) && p !in Keys([Detached(tops, c)])
    ensures |Declared(tops, c, p)| > 0
    ensures p in Keys([tops[0]]) ==>
              Keys([Declared(tops, c, p)[0]]) == Keys([tops[0]]) + Keys([Detached(tops, c)])
    ensures p !in Keys([tops[0]]) ==> Declared(tops, c, p)[0] == tops[0]
  {
    Detach(g, tops, c, p);
    var ct := Detached(tops, c);
    var rest := Others(tops, c);
    if p in Keys(rest) {
      assert Declared(tops, c, p) == AddChild(rest, p, ct);
      DeclareUnder(g, rest, ct, p);
    } else {
      assert Declared(tops, c, p) == rest + [Tree(p, [ct])];
      ElementKey(rest, 0);
      assert Keys([rest[0]]) == {rest[0].key} + Keys(rest[0].kids) + Keys([rest[0]][1..]);
      DeclareTop(g, rest, ct, p);
    }
  }

  /** Inside p's subtree, a child of p is numbered as in the chain of p's
      children started right after p. */
  lemma KidPosition(f: seq<Tree>, id: nat, p: TypeKey, x: TypeKey)
    requires Distinct(f) && p in Keys(f) && x in Keys(KidsOf(f, p))
    ensures Descends(f, x, p)
    ensures Pre(f, id, x) == Pre(KidsOf(f, p), Pre(f, id, p) + 1, x)
    ensures Sub(f, x) == Sub(KidsOf(f, p), x)
    ensures Distinct(KidsOf(f, p))
  {
    var t := Sub(f, p)[0];
    DistinctSub(f, p);
    assert Sub(f, p) == [t];
    assert Keys([t]) == {p} + Keys(t.kids) + Keys([t][1..]);
    PreInSub(f, id, p, x);
  }

  /** The intervals of p's children follow each other in declaration order. */
  lemma SiblingsInTree(f: seq<Tree>, id: nat, p: TypeKey, i: nat, j: nat)
    requires Distinct(f) && p in Keys(f) && i < j < |KidsOf(f, p)|
    ensures KidsOf(f, p)[i].key in Keys(f) && KidsOf(f, p)[j].key in Keys(f)
    ensures Pre(f, id, KidsOf(f, p)[i].key) + Size(Sub(f, KidsOf(f, p)[i].key)) <=
            Pre(f, id, KidsOf(f, p)[j].key)
  {
    var ks := KidsOf(f, p);
    ElementKey(ks, i);
    ElementKey(ks, j);
    KidPosition(f, id, p, ks[i].key);
    KidPosition(f, id, p, ks[j].key);
    SiblingsOrdered(ks, Pre(f, id, p) + 1, i, j);
  }

  // Map algebra for the walk's accumulated writes

  lemma UpdateThenUnion(m: map<TypeKey, nat>, k: TypeKey, v: nat, a: map<TypeKey, nat>, b: map<TypeKey, nat>)
    ensures (m[k := v] + a) + b == m + ((map[k := v] + a) + b)
  {
  }

  lemma UnionThenUpdate(m: map<TypeKey, nat>, a: map<TypeKey, nat>, k: TypeKey, v: nat, b: map<TypeKey, nat>)
    ensures (m + a)[k := v] + b == m + (a[k := v] + b)
  {
  }

  // The identifiers

  /** The bound a numbering map gives a type: zero for a type it does not
      number, as in a zero-initialised static. */
  function IdIn(m: map<TypeKey, nat>, t: TypeKey): nat
  {
    if t in m then m[t] else 0
  }

  /** A HierarchyID value. Equality is by the underlying integer. */
  datatype HierarchyIdValue = HierarchyIdValue(value: nat)
  {
    /** `operator==`. */
    predicate Equals(other: HierarchyIdValue)
    {
      value == other.value
    }

    /** `operator!=`, which EquallyComparable defines as !(a == b). */
    predicate NotEquals(other: HierarchyIdValue)
    {
      !Equals(other)
    }
  }

  /** != on ids is exactly inequality of the integers. */
  lemma NotEqualsIsDistinctValue(a: HierarchyIdValue, b: HierarchyIdValue)
    ensures a.NotEquals(b) <==> a.value != b.value
    ensures a.NotEquals(b) <==> a != b
  {
  }

  /** One hierarchy, `HierarchyID<BaseTy, IDTy, start>`: `root` is BaseTy and
      `bound` the number of values of IDTy (65536 for uint16_t). */
  class HierarchyId {
    const root: TypeKey
    const start: nat
    const bound: nat
    /** `graph.child` of every node. */
    var child: map<TypeKey, NodePtr>
    /** `graph.next` of every node. */
    var next: map<TypeKey, NodePtr>
    /** `id.min` of every node numbered by init; zero elsewhere. */
    var lo: map<TypeKey, nat>
    /** `id.max` of every node numbered by init; zero elsewhere. */
    var hi: map<TypeKey, nat>
    /** `isFrozen`: set by init. */
    var frozen: bool
    /** The pairs (Ty, ParentTy) whose `graphBuilder<Ty, ParentTy>` has been
        initialised; a static inline variable is initialised once. */
    var declared: set<(TypeKey, TypeKey)>
    /** The links still spell out a forest whose first tree is BaseTy's.
        A declaration that would make a node shared, a cycle, or BaseTy a
        child clears it, and from then on the shape is not tracked. */
    ghost var wellFormed: bool
    /** The declared nodes as a forest; the first tree is BaseTy's. */
    ghost var tops: seq<Tree>

    /** While the graph is well formed the links spell out the forest,
        BaseTy's tree first; nothing is numbered before init; init runs
        only on a well-formed graph, and after it the numbering is that of
        the preorder walk of BaseTy's tree. */
    ghost predicate Valid()
      reads this
    {
      start < bound && |tops| > 0 && tops[0].key == root &&
      (wellFormed ==> GraphOk(Links(child, next), tops)) &&
      (!frozen ==> lo == map[] && hi == map[]) &&
      (frozen ==> wellFormed &&
                  lo == Walk([tops[0]], start, bound).lo &&
                  hi == Walk([tops[0]], start, bound).hi)
    }

    /** The tree init numbers: BaseTy and everything below it. */
    ghost function Hierarchy(): seq<Tree>
      reads this`tops
      requires |tops| > 0
    {
      [tops[0]]
    }

    /** The ids of the hierarchy fit in IDTy without wrapping. */
    ghost predicate NoWrap()
      reads this`tops
      requires |tops| > 0
    {
      start + Size(Hierarchy()) < bound
    }

    /** `data<Ty>.id.min`. */
    function Min(t: TypeKey): nat
      reads this`lo
    {
      IdIn(lo, t)
    }

    /** `data<Ty>.id.max`. */
    function Max(t: TypeKey): nat
      reads this`hi
    {
      IdIn(hi, t)
    }

    /** A hierarchy in which only BaseTy has a node. */
    constructor (root: TypeKey, start: nat, bound: nat)
      requires start < bound
      ensures Valid() && !frozen
      ensures this.root == root && this.start == start && this.bound == bound
      ensures tops == [Tree(root, [])] && child == map[] && next == map[]
      ensures declared == {} && wellFormed
    {
      this.root := root;
      this.start := start;
      this.bound := bound;
      child, next := map[], map[];
      lo, hi := map[], map[];
      frozen := false;
      declared := {};
      wellFormed, tops := true, [Tree(root, [])];
      new;
      assert Keys(tops) == {root} + Keys([]) + Keys(tops[1..]);
    }

    /** buildGraph's loop: from p's child field, follow next fields while
        they are non-null. It stops at the null field ending p's chain. */
    method ChainEnd(p: TypeKey) returns (addr: Slot)
      requires Valid() && wellFormed
      ensures addr == EndSlot(p, KidsOf(tops, p))
      ensures Deref(Links(child, next), addr) == Nil
    {
      ghost var g := Links(child, next);
      ghost var ks := KidsOf(tops, p);
      if p in Keys(tops) {
        LinkedKids(g, tops, true, p);
      }
      addr := ChildSlot(p);
      ghost var i := 0;
      while Deref(Links(child, next), addr) != Nil
        invariant 0 <= i <= |ks|
        invariant addr == if i == 0 then ChildSlot(p) else NextSlot(ks[i - 1].key)
        invariant Deref(Links(child, next), addr) == Head(ks[i..])
        decreases |ks| - i
      {
        LinkedSiblings(g, ks, i);
        addr := NextSlot(Deref(Links(child, next), addr).key);
        i := i + 1;
      }
    }

    /** `Inherits<Ty, ParentTy>`: the initialiser of `graphBuilder<Ty,
        ParentTy>`, which runs once per pair, calls `buildGraph(&data<Ty>,
        &data<ParentTy>)`: it walks to the null field at the end of the
        parent's child chain and stores Ty's node there. The graph may
        still be detached from BaseTy, since the initialisers run in any
        order. When Ty already has a parent, is BaseTy, or is ParentTy or
        one of its ancestors, the store happens all the same, but the graph
        stops being a forest with BaseTy's tree first. */
    method DeclareChild(c: TypeKey, p: TypeKey)
      requires Valid() && !frozen && wellFormed
      modifies this`child, this`next, this`tops, this`declared, this`wellFormed
      ensures Valid() && declared == old(declared) + {(c, p)}
      ensures (c, p) in old(declared) ==>
                child == old(child) && next == old(next) && tops == old(tops) && wellFormed
      ensures (c, p) !in old(declared) ==>
                Links(child, next) ==
                Store(old(Links(child, next)), EndSlot(p, KidsOf(old(tops), p)), c)
      ensures (c, p) !in old(declared) ==> (wellFormed <==> Attachable(old(tops), c, p))
      ensures !wellFormed ==> tops == old(tops)
      ensures (c, p) !in old(declared) && wellFormed ==>
                tops == Declared(old(tops), c, p) &&
                KidsOf(tops, p) == KidsOf(old(tops), p) + [Detached(old(tops), c)] &&
                Keys(tops) == Keys(old(tops)) + {c, p}
      ensures (c, p) !in old(declared) && wellFormed && p in Keys(old(Hierarchy())) ==>
                Keys(Hierarchy()) == Keys(old(Hierarchy())) + Keys([Detached(old(tops), c)])
      ensures (c, p) !in old(declared) && wellFormed && p !in Keys(old(Hierarchy())) ==>
                Hierarchy() == old(Hierarchy())
    {
      if (c, p) in declared {
        return;
      }
      declared := declared + {(c, p)};
      var addr := ChainEnd(p);
      Reshape(c, p);
      StoreAt(addr, c);
    }

    /** `*addr = self`. */
    method StoreAt(addr: Slot, c: TypeKey)
      modifies this`child, this`next
      ensures Links(child, next) == Store(old(Links(child, next)), addr, c)
    {
      match addr {
        case ChildSlot(o) => child := child[o := Ptr(c)];
        case NextSlot(o) => next := next[o := Ptr(c)];
      }
    }

    /** What the store at the end of p's chain does to the forest: when c
        can be attached, c's tree becomes the last child of p; otherwise
        the links stop describing a forest. */
    ghost method Reshape(c: TypeKey, p: TypeKey)
      requires Valid() && !frozen && wellFormed
      modifies this`tops, this`wellFormed
      ensures wellFormed <==> Attachable(old(tops), c, p)
      ensures !wellFormed ==> tops == old(tops)
      ensures wellFormed ==> GraphOk(Store(Links(child, next), EndSlot(p, KidsOf(old(tops), p)), c), tops)
      ensures |tops| > 0 && tops[0].key == root
      ensures wellFormed ==> tops == Declared(old(tops), c, p)
      ensures wellFormed ==> KidsOf(tops, p) == KidsOf(old(tops), p) + [Detached(old(tops), c)]
      ensures wellFormed ==> Keys(tops) == Keys(old(tops)) + {c, p}
      ensures wellFormed && p in Keys(old(Hierarchy())) ==>
                Keys(Hierarchy()) == Keys(old(Hierarchy())) + Keys([Detached(old(tops), c)])
      ensures wellFormed && p !in Keys(old(Hierarchy())) ==> Hierarchy() == old(Hierarchy())
    {
      if Attachable(tops, c, p) {
        var g := Links(child, next);
        DeclareOk(g, tops, c, p);
        DeclareKeys(g, tops, c, p);
        DeclareKids(g, tops, c, p);
        DeclareRoot(g, tops, c, p);
        tops := Declared(tops, c, p);
      } else {
        wellFormed := false;
      }
    }

    /** `recursiveIDBuilder(n, id)`: number n's node, its children and then
        its later siblings. The child pointer is read before `id.min` is
        written, since in the source the two share storage. */
    method RecursiveIdBuilder(n: NodePtr, id: nat, ghost f: seq<Tree>) returns (id': nat)
      requires Linked(Links(child, next), f, false) && Head(f) == n && id < bound
      modifies this`lo, this`hi
      ensures lo == old(lo) + Walk(f, id, bound).lo
      ensures hi == old(hi) + Walk(f, id, bound).hi
      ensures id' == Walk(f, id, bound).next
      decreases f
    {
      if n == Nil {
        return id;
      }
      var k := n.key;
      var firstChild := Link(child, k);
      lo := lo[k := id];
      id' := Arith.Inc(id, bound);
      ghost var wk := Walk(f[0].kids, id', bound);
      id' := RecursiveIdBuilder(firstChild, id', f[0].kids);
      hi := hi[k := id'];
      ghost var wr := Walk(f[1..], id', bound);
      id' := RecursiveIdBuilder(Link(next, k), id', f[1..]);
      assert Walk(f, id, bound) ==
        Numbering((map[k := id] + wk.lo) + wr.lo, wk.hi[k := wk.next] + wr.hi, wr.next);
      UpdateThenUnion(old(lo), k, id, wk.lo, wr.lo);
      UnionThenUpdate(old(hi), wk.hi, k, wk.next, wr.hi);
    }

    /** `init()`: runs once (asserts not frozen), freezes, and numbers
        BaseTy's tree from `start`. Without wrap-around the counter ends
        at start plus the number of nodes, which is BaseTy's `id.max`. */
    method Init()
      requires Valid() && !frozen && wellFormed
      modifies this`lo, this`hi, this`frozen
      ensures Valid() && frozen
      ensures lo == Walk(Hierarchy(), start, bound).lo && hi == Walk(Hierarchy(), start, bound).hi
      ensures NoWrap() ==> Max(root) == start + Size(Hierarchy())
    {
      frozen := true;
      var id := start;
      assert Hierarchy()[1..] == [];
      id := RecursiveIdBuilder(Ptr(root), id, Hierarchy());
      if NoWrap() {
        WalkAt(Hierarchy(), start, bound, root);
        assert Sub(Hierarchy(), root) == Hierarchy();
      }
    }

    /** `get<Ty>()`: asserts init has run and returns `id.min`: the preorder
        position of Ty, or zero for a type init never reached. */
    method Get(t: TypeKey) returns (r: HierarchyIdValue)
      requires Valid() && frozen
      ensures r.value == Min(t)
      ensures t in Keys(Hierarchy()) && NoWrap() ==> r.value == Pre(Hierarchy(), start, t)
      ensures t !in Keys(Hierarchy()) ==> r.value == 0
    {
      r := HierarchyIdValue(Min(t));
      WalkKeys(Hierarchy(), start, bound);
      if t in Keys(Hierarchy()) && NoWrap() {
        WalkAt(Hierarchy(), start, bound, t);
      }
    }

    /** `maxID()`: BaseTy's `id.max`, one past the last id. It asserts
        nothing; before init no `max` has been written. */
    method MaxId() returns (r: HierarchyIdValue)
      requires Valid()
      ensures r.value == Max(root)
      ensures !frozen ==> r.value == 0
      ensures frozen && NoWrap() ==> r.value == start + Size(Hierarchy())
    {
      r := HierarchyIdValue(Max(root));
      if frozen && NoWrap() {
        WalkAt(Hierarchy(), start, bound, root);
        assert Sub(Hierarchy(), root) == Hierarchy();
      }
    }

    /** `isclassof<Ty>(id)`: id lies in Ty's interval. */
    predicate IsClassOf(a: TypeKey, id: HierarchyIdValue)
      reads this`lo, this`hi
    {
      Min(a) <= id.value < Max(a)
    }

    /** After init, each node's interval is non-empty and lies within
        [start, maxID()). */
    lemma IntervalBounds(a: TypeKey)
      requires Valid() && frozen && NoWrap() && a in Keys(Hierarchy())
      ensures start <= Min(a) < Max(a) <= start + Size(Hierarchy())
    {
      WalkAt(Hierarchy(), start, bound, a);
      PreBounds(Hierarchy(), start, a);
      SubSize(Hierarchy(), a);
    }

    /** After init, distinct types of the hierarchy get distinct ids. */
    lemma IdsDistinct(a: TypeKey, b: TypeKey)
      requires Valid() && frozen && NoWrap()
      requires a in Keys(Hierarchy()) && b in Keys(Hierarchy()) && a != b
      ensures Min(a) != Min(b)
    {
      WalkAt(Hierarchy(), start, bound, a);
      WalkAt(Hierarchy(), start, bound, b);
      PreInjective(Hierarchy(), start, a, b);
    }

    /** After init, a descendant's interval lies inside its ancestor's. */
    lemma Nested(a: TypeKey, b: TypeKey)
      requires Valid() && frozen && NoWrap() && a in Keys(Hierarchy())
      requires Descends(Hierarchy(), b, a)
      ensures Min(a) <= Min(b) && Max(b) <= Max(a)
    {
      WalkAt(Hierarchy(), start, bound, a);
      WalkAt(Hierarchy(), start, bound, b);
      SubInterval(Hierarchy(), start, a, b);
    }

    /** After init, the intervals of p's children are disjoint and ordered
        as the children were declared. */
    lemma SiblingsOrderedById(p: TypeKey, i: nat, j: nat)
      requires Valid() && frozen && NoWrap() && p in Keys(Hierarchy())
      requires i < j < |KidsOf(Hierarchy(), p)|
      ensures Max(KidsOf(Hierarchy(), p)[i].key) <= Min(KidsOf(Hierarchy(), p)[j].key)
    {
      var ks := KidsOf(Hierarchy(), p);
      SiblingsInTree(Hierarchy(), start, p, i, j);
      WalkAt(Hierarchy(), start, bound, ks[i].key);
      WalkAt(Hierarchy(), start, bound, ks[j].key);
    }

    /** After init, `isclassof<A>(get<B>())` holds exactly when B is A or
        derives from A. */
    lemma IsClassOfIffDescends(a: TypeKey, b: TypeKey)
      requires Valid() && frozen && NoWrap()
      requires a in Keys(Hierarchy()) && b in Keys(Hierarchy())
      ensures IsClassOf(a, HierarchyIdValue(Min(b))) <==> Descends(Hierarchy(), b, a)
    {
      WalkAt(Hierarchy(), start, bound, a);
      WalkAt(Hierarchy(), start, bound, b);
      if Descends(Hierarchy(), b, a) {
        SubInterval(Hierarchy(), start, a, b);
        SubSize(Hierarchy(), b);
      } else {
        OutsideInterval(Hierarchy(), start, a, b);
      }
    }

    /** A type init never reached is a class of nothing. */
    lemma IsClassOfOutside(a: TypeKey, id: HierarchyIdValue)
      requires Valid() && a !in Keys(Hierarchy())
      ensures !IsClassOf(a, id)
    {
      WalkKeys(Hierarchy(), start, bound);
    }
  }
}
