/**
 The namespace store: a heap of mutable mapping nodes (the `Box` objects of the
 registry), addressed by identity. A key of a node holds either a child node or a
 registered object. Reading a dotted path never creates anything; a missing
 segment gives `None`.
 */
module Namespace {

  datatype Option<T> = None | Some(value: T)

  /** The identity of a namespace node: its position in the heap. */
  type Ref = nat

  /** What a key of a node holds: a child node, or a registered (opaque) object. */
  datatype Entry<V> = Sub(ref: Ref) | Leaf(obj: V)

  type Node<V> = map<string, Entry<V>>

  /** Every namespace node ever created, indexed by identity. */
  type Heap<V> = seq<Node<V>>

  /** `e` is an object, or a node that has been created. */
  predicate Live<V>(h: Heap<V>, e: Entry<V>) {
    e.Sub? ==> e.ref < |h|
  }

  /** Every child is numbered after its parent (a registration only adds fresh nodes as children). */
  ghost predicate Ordered<V>(h: Heap<V>) {
    forall x, k :: 0 <= x < |h| && k in h[x] && h[x][k].Sub? ==> x < h[x][k].ref < |h|
  }

  /** Key `k` of node `x` and key `j` of node `y` hold the same child node. */
  ghost predicate SameChild<V>(h: Heap<V>, x: int, k: string, y: int, j: string) {
    0 <= x < |h| && 0 <= y < |h| && k in h[x] && j in h[y] && h[x][k].Sub? && h[x][k] == h[y][j]
  }

  /** A node is held by at most one key of at most one node: the heap is a forest. */
  ghost predicate UniqueParents<V>(h: Heap<V>) {
    forall x, k, y, j {:trigger SameChild(h, x, k, y, j)} :: SameChild(h, x, k, y, j) ==> x == y && k == j
  }

  ghost predicate Valid<V>(h: Heap<V>) {
    Ordered(h) && UniqueParents(h)
  }

  /** One attribute access `e.k`: defined only on a created node holding `k`. */
  function Step<V>(h: Heap<V>, e: Entry<V>, k: string): Option<Entry<V>> {
    if e.Sub? && e.ref < |h| && k in h[e.ref] then Some(h[e.ref][k]) else None
  }

  /** `start.k1.k2...kn`: `None` when a segment is missing or lands on an object. */
  function Lookup<V>(h: Heap<V>, start: Entry<V>, path: seq<string>): Option<Entry<V>>
    decreases |path|
  {
    if path == [] then Some(start)
    else match Step(h, start, path[0])
      case None => None
      case Some(e) => Lookup(h, e, path[1..])
  }

  /** Node `x` can be reached from `start` along some path. */
  ghost predicate Reach<V>(h: Heap<V>, start: Entry<V>, x: Ref) {
    exists p :: Lookup(h, start, p) == Some(Sub(x))
  }

  /** `h2` keeps every entry of `h`, and everything it adds is a node created after `h`. */
  ghost predicate Grows<V>(h: Heap<V>, h2: Heap<V>) {
    && |h| <= |h2|
    && (forall x, k :: 0 <= x < |h| && k in h[x] ==> k in h2[x] && h2[x][k] == h[x][k])
    && (forall x, k :: 0 <= x < |h2| && k in h2[x] && !(x < |h| && k in h[x]) ==>
          h2[x][k].Sub? && h2[x][k].ref >= |h|)
  }

  /** `h` and `h2` agree on key `k` of node `x`. */
  ghost predicate AgreeAt<V>(h: Heap<V>, h2: Heap<V>, x: int, k: string) {
    && 0 <= x < |h|
    && x < |h2|
    && (k in h[x] <==> k in h2[x])
    && (k in h[x] ==> h2[x][k] == h[x][k])
  }

  // ---------------------------------------------------------------------------
  // Paths

  /** Looking up a concatenated path is looking up its halves one after the other. */
  lemma {:induction false} LookupAppend<V>(h: Heap<V>, s: Entry<V>, p: seq<string>, q: seq<string>)
    ensures Lookup(h, s, p + q) ==
      match Lookup(h, s, p)
      case None => None
      case Some(e) => Lookup(h, e, q)
    decreases |p|
  {
    if p == [] {
      assert p + q == q;
    } else {
      assert (p + q)[0] == p[0];
      assert (p + q)[1..] == p[1..] + q;
      match Step(h, s, p[0])
      case None =>
      case Some(e) => LookupAppend(h, e, p[1..], q);
    }
  }

  /** The last segment of a path is a single step from the node its prefix reaches. */
  lemma LookupSnoc<V>(h: Heap<V>, s: Entry<V>, p: seq<string>, k: string)
    ensures Lookup(h, s, p + [k]) ==
      match Lookup(h, s, p)
      case None => None
      case Some(e) => Step(h, e, k)
  {
    LookupAppend(h, s, p, [k]);
    match Lookup(h, s, p)
    case None =>
    case Some(e) =>
      assert [k][1..] == [];
  }

  /** In an ordered heap, a lookup from a live entry gives a live entry, and a
      node reached by a non-empty path is numbered after its starting node. */
  lemma {:induction false} LookupDescends<V>(h: Heap<V>, s: Entry<V>, p: seq<string>)
    requires Ordered(h) && Live(h, s)
    ensures Lookup(h, s, p).Some? ==> Live(h, Lookup(h, s, p).value)
    ensures Lookup(h, s, p).Some? && Lookup(h, s, p).value.Sub? && s.Sub? ==>
      s.ref <= Lookup(h, s, p).value.ref && (p != [] ==> s.ref < Lookup(h, s, p).value.ref)
    decreases |p|
  {
    if p != [] {
      match Step(h, s, p[0])
      case None =>
      case Some(e) =>
        LookupDescends(h, e, p[1..]);
    }
  }

  /** Every strict prefix of a path that resolves from `s` resolves to a node numbered
      before the node the whole path reaches. */
  lemma AncestorsBelow<V>(h: Heap<V>, s: Entry<V>, p: seq<string>, i: int)
    requires Ordered(h) && Live(h, s)
    requires 0 <= i < |p| && Lookup(h, s, p).Some?
    ensures Lookup(h, s, p[..i]).Some? && Lookup(h, s, p[..i]).value.Sub?
    ensures Lookup(h, s, p).value.Sub? ==> Lookup(h, s, p[..i]).value.ref < Lookup(h, s, p).value.ref
  {
    assert p == p[..i] + p[i..];
    LookupAppend(h, s, p[..i], p[i..]);
    var a := Lookup(h, s, p[..i]).value;
    assert p[i..] != [];
    LookupDescends(h, s, p[..i]);
    LookupDescends(h, a, p[i..]);
  }

  /** Two paths that reach the same node end alike: the shorter one is a suffix of
      the longer, which first leads to the shorter one's start. */
  lemma {:induction false} Converge<V>(h: Heap<V>, a: Ref, b: Ref, c: Ref, p: seq<string>, q: seq<string>)
    requires Valid(h)
    requires Lookup(h, Sub(a), p) == Some(Sub(c)) && Lookup(h, Sub(b), q) == Some(Sub(c))
    requires |p| <= |q|
    ensures Lookup(h, Sub(b), q[..|q| - |p|]) == Some(Sub(a))
    ensures p == q[|q| - |p|..]
    decreases |p|
  {
    if p == [] {
      assert q[..|q|] == q;
    } else {
      var p', k := p[..|p| - 1], p[|p| - 1];
      var q', j := q[..|q| - 1], q[|q| - 1];
      assert p == p' + [k];
      assert q == q' + [j];
      LookupSnoc(h, Sub(a), p', k);
      LookupSnoc(h, Sub(b), q', j);
      var y := Lookup(h, Sub(a), p').value;
      var z := Lookup(h, Sub(b), q').value;
      assert SameChild(h, y.ref, k, z.ref, j);
      Converge(h, a, b, y.ref, p', q');
      assert q'[..|q'| - |p'|] == q[..|q| - |p|];
      assert q[|q| - |p|..] == q'[|q'| - |p'|..] + [j];
    }
  }

  /** In a forest, the path from a node to a descendant is unique. */
  lemma PathUnique<V>(h: Heap<V>, a: Ref, c: Ref, p: seq<string>, q: seq<string>)
    requires Valid(h) && a < |h|
    requires Lookup(h, Sub(a), p) == Some(Sub(c)) && Lookup(h, Sub(a), q) == Some(Sub(c))
    ensures p == q
  {
    if |p| <= |q| {
      Converge(h, a, a, c, p, q);
      LookupDescends(h, Sub(a), q[..|q| - |p|]);
      assert q[|q| - |p|..] == q;
    } else {
      Converge(h, a, a, c, q, p);
      LookupDescends(h, Sub(a), p[..|p| - |q|]);
      assert p[|p| - |q|..] == p;
    }
  }

  /** Reachability extends backwards by one step. */
  lemma ReachStep<V>(h: Heap<V>, s: Entry<V>, k: string, e: Entry<V>, x: Ref)
    requires Step(h, s, k) == Some(e) && Reach(h, e, x)
    ensures Reach(h, s, x)
  {
    var p :| Lookup(h, e, p) == Some(Sub(x));
    assert ([k] + p)[0] == k && ([k] + p)[1..] == p;
    assert Lookup(h, s, [k] + p) == Some(Sub(x));
  }

  /** Reachability is transitive. */
  lemma ReachTrans<V>(h: Heap<V>, s: Entry<V>, y: Ref, x: Ref)
    requires Reach(h, s, y) && Reach(h, Sub(y), x)
    ensures Reach(h, s, x)
  {
    var p :| Lookup(h, s, p) == Some(Sub(y));
    var q :| Lookup(h, Sub(y), q) == Some(Sub(x));
    LookupAppend(h, s, p, q);
    assert Lookup(h, s, p + q) == Some(Sub(x));
  }

  // ---------------------------------------------------------------------------
  // Frames

  /** A lookup only depends on the entries its own traversal reads. */
  lemma {:induction false} AgreeAlong<V>(h: Heap<V>, h2: Heap<V>, s: Entry<V>, p: seq<string>)
    requires Ordered(h) && Live(h, s)
    requires forall j :: 0 <= j < |p| && Lookup(h, s, p[..j]).Some? && Lookup(h, s, p[..j]).value.Sub? ==>
      AgreeAt(h, h2, Lookup(h, s, p[..j]).value.ref, p[j])
    ensures Lookup(h2, s, p) == Lookup(h, s, p)
    decreases |p|
  {
    if p != [] {
      assert p[..0] == [];
      match s
      case Leaf(_) =>
      case Sub(y) =>
        assert AgreeAt(h, h2, y, p[0]);
        match Step(h, s, p[0])
        case None =>
        case Some(e) =>
          forall j | 0 <= j < |p[1..]| && Lookup(h, e, p[1..][..j]).Some? && Lookup(h, e, p[1..][..j]).value.Sub?
            ensures AgreeAt(h, h2, Lookup(h, e, p[1..][..j]).value.ref, p[1..][j])
          {
            var pj := p[..j + 1];
            assert pj[0] == p[0] && pj[1..] == p[1..][..j];
            assert Lookup(h, s, pj) == Lookup(h, e, p[1..][..j]);
          }
          LookupDescends(h, s, [p[0]]);
          assert Lookup(h, s, [p[0]]) == Some(e) by { assert [p[0]][1..] == []; }
          AgreeAlong(h, h2, e, p[1..]);
    }
  }

  /** Storing an object under a key of a node keeps the heap a forest. */
  lemma AssignLeafValid<V>(h: Heap<V>, x: Ref, k: string, v: V)
    requires Valid(h) && x < |h|
    ensures Valid(h[x := h[x][k := Leaf(v)]])
  {
    var h2: Heap<V> := h[x := h[x][k := Leaf(v)]];
    forall y: int, j: string | 0 <= y < |h2| && j in h2[y] && h2[y][j].Sub?
      ensures j in h[y] && h2[y][j] == h[y][j]
    {
    }
    forall a: int, i: string, b: int, j: string | SameChild(h2, a, i, b, j) ensures a == b && i == j {
      assert SameChild(h, a, i, b, j);
    }
  }

  /** Adding a fresh empty node under a missing key keeps the heap a forest. */
  lemma AddChildValid<V>(h: Heap<V>, x: Ref, k: string)
    requires Valid(h) && x < |h| && k !in h[x]
    ensures Valid(h[x := h[x][k := Sub(|h|)]] + [map[]])
  {
    var h2: Heap<V> := h[x := h[x][k := Sub(|h|)]] + [map[]];
    forall a: int, i: string, b: int, j: string | SameChild(h2, a, i, b, j) ensures a == b && i == j {
      if (a, i) != (x, k) && (b, j) != (x, k) {
        assert SameChild(h, a, i, b, j);
      }
    }
  }

  /** Changing one entry leaves every lookup that does not read it unchanged. */
  lemma AssignFrame<V>(h: Heap<V>, x: Ref, k: string, v: Entry<V>, s: Entry<V>, p: seq<string>)
    requires Ordered(h) && Live(h, s) && x < |h|
    requires forall j :: 0 <= j < |p| && Lookup(h, s, p[..j]) == Some(Sub(x)) ==> p[j] != k
    ensures Lookup(h[x := h[x][k := v]], s, p) == Lookup(h, s, p)
  {
    var h2 := h[x := h[x][k := v]];
    forall j | 0 <= j < |p| && Lookup(h, s, p[..j]).Some? && Lookup(h, s, p[..j]).value.Sub?
      ensures AgreeAt(h, h2, Lookup(h, s, p[..j]).value.ref, p[j])
    {
      LookupDescends(h, s, p[..j]);
    }
    AgreeAlong(h, h2, s, p);
  }

  /** Changing one entry of node `x` keeps every path to `x` or to an ancestor of `x`. */
  lemma AssignKeepsAncestors<V>(h: Heap<V>, x: Ref, k: string, v: Entry<V>, s: Entry<V>, p: seq<string>, y: Ref)
    requires Ordered(h) && Live(h, s) && x < |h|
    requires Lookup(h, s, p) == Some(Sub(y)) && y <= x
    ensures Lookup(h[x := h[x][k := v]], s, p) == Some(Sub(y))
  {
    forall j | 0 <= j < |p| ensures Lookup(h, s, p[..j]) != Some(Sub(x)) {
      AncestorsBelow(h, s, p, j);
    }
    AssignFrame(h, x, k, v, s, p);
  }

  /** Changing one entry of the node a path reaches keeps every prefix of that path,
      each of which leads to a node. */
  lemma AssignKeepsPrefix<V>(h: Heap<V>, x: Ref, k: string, v: Entry<V>, s: Entry<V>, p: seq<string>, i: int)
    requires Ordered(h) && Live(h, s) && x < |h|
    requires Lookup(h, s, p) == Some(Sub(x)) && 0 <= i <= |p|
    ensures Lookup(h, s, p[..i]).Some? && Lookup(h, s, p[..i]).value.Sub?
    ensures Lookup(h[x := h[x][k := v]], s, p[..i]) == Lookup(h, s, p[..i])
  {
    if i < |p| {
      AncestorsBelow(h, s, p, i);
    } else {
      assert p[..i] == p;
    }
    AssignKeepsAncestors(h, x, k, v, s, p[..i], Lookup(h, s, p[..i]).value.ref);
  }

  /** Lookups from `s` only read nodes reachable from `s`: if none of those changed,
      no lookup from `s` changed. */
  lemma UnreachedFrame<V>(h: Heap<V>, h2: Heap<V>, s: Entry<V>, p: seq<string>)
    requires Ordered(h) && Live(h, s) && |h| <= |h2|
    requires forall x :: 0 <= x < |h| && Reach(h, s, x) ==> h2[x] == h[x]
    ensures Lookup(h2, s, p) == Lookup(h, s, p)
  {
    forall j | 0 <= j < |p| && Lookup(h, s, p[..j]).Some? && Lookup(h, s, p[..j]).value.Sub?
      ensures AgreeAt(h, h2, Lookup(h, s, p[..j]).value.ref, p[j])
    {
      LookupDescends(h, s, p[..j]);
      assert Reach(h, s, Lookup(h, s, p[..j]).value.ref);
    }
    AgreeAlong(h, h2, s, p);
  }

  // ---------------------------------------------------------------------------
  // Growth: adding fresh nodes and entries that lead to them

  /** Growth keeps every lookup that succeeded. */
  lemma {:induction false} GrowsLookup<V>(h: Heap<V>, h2: Heap<V>, s: Entry<V>, p: seq<string>)
    requires Grows(h, h2) && Lookup(h, s, p).Some?
    ensures Lookup(h2, s, p) == Lookup(h, s, p)
    decreases |p|
  {
    if p != [] {
      match Step(h, s, p[0])
      case None =>
      case Some(e) =>
        assert Step(h2, s, p[0]) == Some(e);
        GrowsLookup(h, h2, e, p[1..]);
    }
  }

  lemma GrowsTrans<V>(h: Heap<V>, h2: Heap<V>, h3: Heap<V>)
    requires Grows(h, h2) && Grows(h2, h3)
    ensures Grows(h, h3)
  {
  }

  /** Below a node created during growth, everything is a node created during growth. */
  lemma {:induction false} FreshClosed<V>(h: Heap<V>, h2: Heap<V>, f: Ref, p: seq<string>)
    requires Grows(h, h2) && |h| <= f
    requires Lookup(h2, Sub(f), p).Some?
    ensures Lookup(h2, Sub(f), p).value.Sub? && Lookup(h2, Sub(f), p).value.ref >= |h|
    decreases |p|
  {
    if p != [] {
      var e := Step(h2, Sub(f), p[0]).value;
      FreshClosed(h, h2, e.ref, p[1..]);
    }
  }

  /** A lookup after growth that ends at an object or at a node that already existed
      succeeded before the growth. */
  lemma {:induction false} ShrinkLookup<V>(h: Heap<V>, h2: Heap<V>, a: Ref, p: seq<string>)
    requires Ordered(h) && Ordered(h2) && Grows(h, h2) && a < |h|
    requires Lookup(h2, Sub(a), p).Some?
    requires Lookup(h2, Sub(a), p).value.Leaf? || Lookup(h2, Sub(a), p).value.ref < |h|
    ensures Lookup(h, Sub(a), p) == Lookup(h2, Sub(a), p)
    decreases |p|
  {
    if p != [] {
      var e := Step(h2, Sub(a), p[0]).value;
      if p[0] in h[a] {
        assert Step(h, Sub(a), p[0]) == Some(e);
        if e.Sub? {
          ShrinkLookup(h, h2, e.ref, p[1..]);
        }
      } else {
        FreshClosed(h, h2, e.ref, p[1..]);
      }
    }
  }
}
