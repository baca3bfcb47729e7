/**
 What registering does to the namespace: where the object lands, what is created,
 what is reused, what is left alone, when registration raises, and what happens
 when the same decorator is applied again.
 */
module RegistrarProperties {
  import opened Namespace
  import opened Registrar

  /** `p` is a prefix of `q`. */
  predicate IsPrefix(p: seq<string>, q: seq<string>) {
    |p| <= |q| && q[..|p|] == p
  }

  /** No proper prefix of `ks` (the empty one included) leads from `c` to a
      registered object: the walk can descend through every key of `ks`. */
  ghost predicate Passable<V>(h: Heap<V>, c: Entry<V>, ks: seq<string>) {
    forall i :: 0 <= i < |ks| && Lookup(h, c, ks[..i]).Some? ==> Lookup(h, c, ks[..i]).value.Sub?
  }

  /** A decorator whose cursor is (or was) inside partition `p`. */
  ghost predicate Within<V>(h: Heap<V>, d: Decorator<V>, p: Partition) {
    d.cursor.Leaf? || Reach(h, Root(p), d.cursor.ref)
  }

  // ---------------------------------------------------------------------------
  // The setdefault loop

  /** A path from `c` is `ks[0]` followed by the rest from the child under `ks[0]`. */
  lemma LookupHead<V>(h: Heap<V>, c: Entry<V>, ks: seq<string>, i: int)
    requires 1 <= i <= |ks|
    ensures Lookup(h, c, ks[..i]) ==
      match Step(h, c, ks[0])
      case None => None
      case Some(e) => Lookup(h, e, ks[1..][..i - 1])
  {
    assert ks[..i][0] == ks[0];
    assert ks[..i][1..] == ks[1..][..i - 1];
  }

  /** The loop raises exactly when some proper prefix of the keys holds an object. */
  lemma {:induction false} DescendPassable<V>(h: Heap<V>, c: Entry<V>, ks: seq<string>)
    requires Valid(h) && Live(h, c)
    ensures Descend(h, c, ks).fault.None? <==> Passable(h, c, ks)
    decreases |ks|
  {
    if ks != [] {
      assert ks[..0] == [];
      var s := SetDefault(h, c, ks[0]);
      if s.fault.None? {
        var x := c.ref;
        if ks[0] in h[x] {
          DescendPassable(s.heap, s.cursor, ks[1..]);
          assert Step(h, c, ks[0]) == Some(s.cursor) by { assert [ks[0]][1..] == []; }
          forall i | 1 <= i < |ks| {
            LookupHead(h, c, ks, i);
          }
          assert Passable(h, c, ks) <==> Passable(s.heap, s.cursor, ks[1..]) by {
            if Passable(s.heap, s.cursor, ks[1..]) {
              forall i | 0 <= i < |ks| && Lookup(h, c, ks[..i]).Some?
                ensures Lookup(h, c, ks[..i]).value.Sub?
              {
                if i > 0 {
                  assert Lookup(h, c, ks[..i]) == Lookup(h, s.cursor, ks[1..][..i - 1]);
                }
              }
            }
            if Passable(h, c, ks) {
              forall j | 0 <= j < |ks[1..]| && Lookup(h, s.cursor, ks[1..][..j]).Some?
                ensures Lookup(h, s.cursor, ks[1..][..j]).value.Sub?
              {
                assert Lookup(h, c, ks[..j + 1]) == Lookup(h, s.cursor, ks[1..][..j]);
              }
            }
          }
        } else {
          forall i | 1 <= i < |ks| ensures Lookup(h, c, ks[..i]) == None {
            LookupHead(h, c, ks, i);
          }
        }
      }
    }
  }

  /** Walking keys that all resolve already creates nothing and raises nothing: every
      `setdefault` finds its key (reuse of existing intermediate nodes). */
  lemma {:induction false} DescendReuses<V>(h: Heap<V>, c: Entry<V>, ks: seq<string>)
    requires Valid(h) && Live(h, c)
    requires Lookup(h, c, ks).Some?
    ensures Descend(h, c, ks) == Walked(h, Lookup(h, c, ks).value, None)
    decreases |ks|
  {
    if ks != [] {
      var s := SetDefault(h, c, ks[0]);
      assert s == Walked(h, h[c.ref][ks[0]], None);
      DescendReuses(h, s.cursor, ks[1..]);
    }
  }

  /** When the prefix `ks[..i]` holds an object, the loop stops there with the
      AttributeError of `setdefault(ks[i], ...)`, having changed nothing. */
  lemma {:induction false} DescendFault<V>(h: Heap<V>, c: Entry<V>, ks: seq<string>, i: int, o: V)
    requires Valid(h) && Live(h, c)
    requires 0 <= i < |ks| && Lookup(h, c, ks[..i]) == Some(Leaf(o))
    ensures Descend(h, c, ks) == Walked(h, Leaf(o), Some(NoSetDefault(ks[i])))
    decreases |ks|
  {
    if i == 0 {
      assert ks[..0] == [];
    } else {
      LookupHead(h, c, ks, i);
      var s := SetDefault(h, c, ks[0]);
      assert s == Walked(h, h[c.ref][ks[0]], None);
      assert ks[1..][i - 1] == ks[i];
      DescendFault(h, s.cursor, ks[1..], i - 1, o);
    }
  }

  /** One turn of the loop: after a successful first `setdefault` the rest of the
      loop continues from the child it returned, which the first key still leads
      to at the end. */
  lemma DescendFirst<V>(h: Heap<V>, c: Entry<V>, ks: seq<string>)
    requires Valid(h) && Live(h, c) && ks != [] && SetDefault(h, c, ks[0]).fault.None?
    ensures var s := SetDefault(h, c, ks[0]);
      && Descend(h, c, ks) == Descend(s.heap, s.cursor, ks[1..])
      && Lookup(Descend(h, c, ks).heap, c, ks[..1]) == Some(s.cursor)
  {
  }

  /** Every node the loop creates lies on the path of the keys. */
  lemma {:induction false} DescendFresh<V>(h: Heap<V>, c: Entry<V>, ks: seq<string>, f: int)
    requires Valid(h) && Live(h, c)
    requires |h| <= f < |Descend(h, c, ks).heap|
    ensures exists i :: 0 <= i <= |ks| && Lookup(Descend(h, c, ks).heap, c, ks[..i]) == Some(Sub(f))
    decreases |ks|
  {
    if ks != [] {
      var s := SetDefault(h, c, ks[0]);
      if s.fault.None? {
        DescendFirst(h, c, ks);
        var r := Descend(s.heap, s.cursor, ks[1..]);
        if f < |s.heap| {
          assert s.cursor == Sub(f);
        } else {
          DescendFresh(s.heap, s.cursor, ks[1..], f);
          var i :| 0 <= i <= |ks[1..]| && Lookup(r.heap, s.cursor, ks[1..][..i]) == Some(Sub(f));
          LookupAppend(r.heap, c, ks[..1], ks[1..][..i]);
          assert ks[..1] + ks[1..][..i] == ks[..i + 1];
        }
      }
    }
  }

  /** The loop only changes nodes reachable from where it starts. */
  lemma {:induction false} DescendTouches<V>(h: Heap<V>, c: Entry<V>, ks: seq<string>, x: int)
    requires Valid(h) && Live(h, c)
    requires 0 <= x < |h| && Descend(h, c, ks).heap[x] != h[x]
    ensures Reach(h, c, x)
    decreases |ks|
  {
    if ks != [] {
      var s := SetDefault(h, c, ks[0]);
      if s.fault.None? {
        if s.heap == h {
          assert Step(h, c, ks[0]) == Some(s.cursor) by { assert [ks[0]][1..] == []; }
          DescendTouches(s.heap, s.cursor, ks[1..], x);
          ReachStep(h, c, ks[0], s.cursor, x);
        } else if s.heap[x] != h[x] {
          assert Lookup(h, c, []) == Some(Sub(x));
        } else {
          DescendTouches(s.heap, s.cursor, ks[1..], x);
          var p :| Lookup(s.heap, s.cursor, p) == Some(Sub(x));
          LookupDescends(s.heap, s.cursor, p);
          assert false;
        }
      }
    }
  }

  /** A path that is not a prefix of the keys looks up the same after the loop: the
      nodes it creates hang only on that path. */
  lemma DescendKeepsUnrelated<V>(h: Heap<V>, c: Entry<V>, ks: seq<string>, q: seq<string>)
    requires Valid(h) && Live(h, c) && !IsPrefix(q, ks)
    ensures Lookup(Descend(h, c, ks).heap, c, q) == Lookup(h, c, q)
  {
    var w := Descend(h, c, ks);
    if Lookup(h, c, q).Some? {
      GrowsLookup(h, w.heap, c, q);
    } else if Lookup(w.heap, c, q).Some? && w.heap != h {
      var e := Lookup(w.heap, c, q).value;
      assert c.Sub?;
      LookupDescends(w.heap, c, q);
      if e.Leaf? || e.ref < |h| {
        ShrinkLookup(h, w.heap, c.ref, q);
        assert false;
      } else {
        DescendFresh(h, c, ks, e.ref);
        var i :| 0 <= i <= |ks| && Lookup(w.heap, c, ks[..i]) == Some(Sub(e.ref));
        PathUnique(w.heap, c.ref, e.ref, q, ks[..i]);
        PrefixOfSlice(ks, i);
        assert false;
      }
    }
  }

  /** A slice from the start is a prefix. */
  lemma PrefixOfSlice(s: seq<string>, i: int)
    requires 0 <= i <= |s|
    ensures IsPrefix(s[..i], s)
  {
  }

  // ---------------------------------------------------------------------------
  // One application of a decorator, on the keys of its name

  /** A successful call leaves the lookup of every proper prefix of the keys as the
      loop left it: the final assignment writes below all of them. */
  lemma StoreKeepsWalked<V>(h: Heap<V>, d: Decorator<V>, keys: seq<string>, obj: V, i: int)
    requires Valid(h) && Live(h, d.cursor) && |keys| >= 1
    requires Store(h, d, keys, obj).outcome.Returned? && 0 <= i < |keys|
    ensures var w := Descend(h, d.cursor, keys[..|keys| - 1]);
      && Lookup(Store(h, d, keys, obj).heap, d.cursor, keys[..i]) == Lookup(w.heap, d.cursor, keys[..i])
      && Lookup(w.heap, d.cursor, keys[..i]).Some? && Lookup(w.heap, d.cursor, keys[..i]).value.Sub?
  {
    var ks := keys[..|keys| - 1];
    var w := Descend(h, d.cursor, ks);
    assert keys[..i] == ks[..i];
    AssignKeepsPrefix(w.heap, w.cursor.ref, keys[|keys| - 1], Leaf(obj), d.cursor, ks, i);
  }

  /** After a successful call every proper prefix of the keys leads to a namespace
      node, so the next registration under the same name passes. */
  lemma StorePassable<V>(h: Heap<V>, d: Decorator<V>, keys: seq<string>, obj: V)
    requires Valid(h) && Live(h, d.cursor) && |keys| >= 1
    requires Store(h, d, keys, obj).outcome.Returned?
    ensures Passable(Store(h, d, keys, obj).heap, d.cursor, keys)
  {
    var r := Store(h, d, keys, obj);
    forall i | 0 <= i < |keys| ensures Lookup(r.heap, d.cursor, keys[..i]).Some? && Lookup(r.heap, d.cursor, keys[..i]).value.Sub? {
      AncestorsBelow(r.heap, d.cursor, keys, i);
    }
  }

  /** A prefix of the keys that led somewhere before a successful call still leads
      to the same node: existing intermediate namespaces are reused, not replaced. */
  lemma StoreKeepsPrefix<V>(h: Heap<V>, d: Decorator<V>, keys: seq<string>, obj: V, i: int)
    requires Valid(h) && Live(h, d.cursor) && |keys| >= 1
    requires Store(h, d, keys, obj).outcome.Returned? && 0 <= i < |keys|
    requires Lookup(h, d.cursor, keys[..i]).Some?
    ensures Lookup(Store(h, d, keys, obj).heap, d.cursor, keys[..i]) == Lookup(h, d.cursor, keys[..i])
  {
    StoreKeepsWalked(h, d, keys, obj, i);
    GrowsLookup(h, Descend(h, d.cursor, keys[..|keys| - 1]).heap, d.cursor, keys[..i]);
  }

  /** Every node a call creates is the node of some proper prefix of the keys. */
  lemma StoreFresh<V>(h: Heap<V>, d: Decorator<V>, keys: seq<string>, obj: V, f: int)
    requires Valid(h) && Live(h, d.cursor) && |keys| >= 1
    requires |h| <= f < |Store(h, d, keys, obj).heap|
    ensures exists i :: 0 <= i < |keys| && Lookup(Store(h, d, keys, obj).heap, d.cursor, keys[..i]) == Some(Sub(f))
  {
    var ks := keys[..|keys| - 1];
    DescendFresh(h, d.cursor, ks, f);
    var i :| 0 <= i <= |ks| && Lookup(Descend(h, d.cursor, ks).heap, d.cursor, ks[..i]) == Some(Sub(f));
    StoreKeepsWalked(h, d, keys, obj, i);
    assert keys[..i] == ks[..i];
  }

  /** When all but the last key already lead to a node, the call creates nothing: it
      assigns the object at the last key of that node, moves the cursor there and
      returns the object. */
  lemma StoreReuses<V>(h: Heap<V>, d: Decorator<V>, keys: seq<string>, obj: V, x: Ref)
    requires Valid(h) && Live(h, d.cursor) && |keys| >= 1
    requires Lookup(h, d.cursor, keys[..|keys| - 1]) == Some(Sub(x)) && x < |h|
    ensures Store(h, d, keys, obj) ==
      Applied(h[x := h[x][keys[|keys| - 1] := Leaf(obj)]], Decorator(d.name, Sub(x)), Returned(obj))
  {
    DescendReuses(h, d.cursor, keys[..|keys| - 1]);
  }

  /** A call returns exactly when no proper prefix of the keys (the empty one
      included) already leads to a registered object. */
  lemma StoreOutcome<V>(h: Heap<V>, d: Decorator<V>, keys: seq<string>, obj: V)
    requires Valid(h) && Live(h, d.cursor) && |keys| >= 1
    ensures Store(h, d, keys, obj).outcome.Returned? <==> Passable(h, d.cursor, keys)
  {
    var ks := keys[..|keys| - 1];
    var w := Descend(h, d.cursor, ks);
    DescendPassable(h, d.cursor, ks);
    assert forall i :: 0 <= i <= |ks| ==> keys[..i] == ks[..i];
    assert ks[..|ks|] == ks;
    if w.fault.None? && Lookup(h, d.cursor, ks).Some? {
      GrowsLookup(h, w.heap, d.cursor, ks);
    }
  }

  /** The closure `_register(name, registry)` returns registers: applied to `obj` it
      returns exactly when no proper prefix of the name holds an object below
      `registry`, then gives back `obj` itself, found under the keys of `name` below
      `registry`; when it raises, nothing has changed. */
  lemma RegisterRegisters<V>(h: Heap<V>, name: string, registry: Entry<V>, obj: V)
    requires Valid(h) && Live(h, registry)
    ensures var r := Apply(h, Register(name, registry), obj);
      && (r.outcome.Returned? <==> Passable(h, registry, Keys(name)))
      && (r.outcome.Returned? ==> r.outcome == Returned(obj) && Lookup(r.heap, registry, Keys(name)) == Some(Leaf(obj)))
      && (r.outcome.Raised? ==> r.heap == h)
  {
    StoreOutcome(h, Register(name, registry), Keys(name), obj);
  }

  /** When the prefix `keys[..i]` holds an object `o`, the call raises — the
      AttributeError of `setdefault` on an intermediate key, or the TypeError of the
      item assignment when `o` sits at all but the last key — and changes nothing,
      leaving the cursor on `o`. */
  lemma StoreBlocked<V>(h: Heap<V>, d: Decorator<V>, keys: seq<string>, obj: V, i: int, o: V)
    requires Valid(h) && Live(h, d.cursor) && |keys| >= 1
    requires 0 <= i < |keys| && Lookup(h, d.cursor, keys[..i]) == Some(Leaf(o))
    ensures var r := Store(h, d, keys, obj);
      && r.heap == h
      && r.decorator == Decorator(d.name, Leaf(o))
      && r.outcome == Raised(if i < |keys| - 1 then NoSetDefault(keys[i]) else NoItemAssignment(keys[|keys| - 1]))
  {
    var ks := keys[..|keys| - 1];
    assert keys[..i] == ks[..i];
    if i < |ks| {
      DescendFault(h, d.cursor, ks, i, o);
    } else {
      assert ks[..i] == ks;
      DescendReuses(h, d.cursor, ks);
    }
  }

  /** A call that raised changed no node and left the cursor on an object, so every
      later call of the same decorator raises as well and changes nothing. */
  lemma StoreFailure<V>(h: Heap<V>, d: Decorator<V>, keys: seq<string>, obj: V, keys2: seq<string>, obj2: V)
    requires Valid(h) && Live(h, d.cursor) && |keys| >= 1 && |keys2| >= 1
    requires Store(h, d, keys, obj).outcome.Raised?
    ensures var r := Store(h, d, keys, obj);
      && r.heap == h
      && Store(r.heap, r.decorator, keys2, obj2).outcome.Raised?
      && Store(r.heap, r.decorator, keys2, obj2).heap == h
  {
  }

  /** A path that reached the decorator's cursor still reaches it after the call. */
  lemma StoreKeepsPath<V>(h: Heap<V>, d: Decorator<V>, keys: seq<string>, obj: V, s: Entry<V>, p: seq<string>)
    requires Valid(h) && Live(h, d.cursor) && |keys| >= 1 && Live(h, s)
    requires Lookup(h, s, p) == Some(d.cursor)
    ensures Lookup(Store(h, d, keys, obj).heap, s, p) == Some(d.cursor)
  {
    if Store(h, d, keys, obj).outcome.Returned? {
      var ks := keys[..|keys| - 1];
      var w := Descend(h, d.cursor, ks);
      GrowsLookup(h, w.heap, s, p);
      LookupDescends(w.heap, d.cursor, ks);
      AssignKeepsAncestors(w.heap, w.cursor.ref, keys[|keys| - 1], Leaf(obj), s, p, d.cursor.ref);
    }
  }

  /** The object lands under `p + keys` for every path `p` to the decorator's cursor,
      and the cursor moves to the node under `p` plus all but the last key. */
  lemma StoreNests<V>(h: Heap<V>, d: Decorator<V>, keys: seq<string>, obj: V, s: Entry<V>, p: seq<string>)
    requires Valid(h) && Live(h, d.cursor) && |keys| >= 1 && Live(h, s)
    requires Lookup(h, s, p) == Some(d.cursor) && Store(h, d, keys, obj).outcome.Returned?
    ensures var r := Store(h, d, keys, obj);
      && Lookup(r.heap, s, p + keys) == Some(Leaf(obj))
      && Lookup(r.heap, s, p + keys[..|keys| - 1]) == Some(r.decorator.cursor)
  {
    var r := Store(h, d, keys, obj);
    StoreKeepsPath(h, d, keys, obj, s, p);
    LookupAppend(r.heap, s, p, keys);
    LookupAppend(r.heap, s, p, keys[..|keys| - 1]);
  }

  /** A call only changes nodes reachable from the decorator's cursor. */
  lemma StoreTouches<V>(h: Heap<V>, d: Decorator<V>, keys: seq<string>, obj: V, x: int)
    requires Valid(h) && Live(h, d.cursor) && |keys| >= 1
    requires 0 <= x < |h| && Store(h, d, keys, obj).heap[x] != h[x]
    ensures Reach(h, d.cursor, x)
  {
    var ks := keys[..|keys| - 1];
    var w := Descend(h, d.cursor, ks);
    if w.heap[x] != h[x] {
      DescendTouches(h, d.cursor, ks, x);
    } else {
      assert x == w.cursor.ref;
      ShrinkLookup(h, w.heap, d.cursor.ref, ks);
    }
  }

  /** A path that is neither a prefix nor an extension of the keys looks up the same
      before and after the call: siblings and everything else are left alone. */
  lemma StoreKeepsUnrelated<V>(h: Heap<V>, d: Decorator<V>, keys: seq<string>, obj: V, q: seq<string>)
    requires Valid(h) && Live(h, d.cursor) && |keys| >= 1
    requires !IsPrefix(q, keys) && !IsPrefix(keys, q)
    ensures Lookup(Store(h, d, keys, obj).heap, d.cursor, q) == Lookup(h, d.cursor, q)
  {
    if Store(h, d, keys, obj).outcome.Returned? {
      var ks := keys[..|keys| - 1];
      var last := keys[|keys| - 1];
      var w := Descend(h, d.cursor, ks);
      var x := w.cursor.ref;
      assert !IsPrefix(q, ks) by {
        if |q| <= |ks| {
          assert keys[..|q|] == ks[..|q|];
        }
      }
      DescendKeepsUnrelated(h, d.cursor, ks, q);
      assert keys == ks + [last];
      LastWriteUnread(w.heap, d.cursor.ref, x, ks, last, q);
      AssignFrame(w.heap, x, last, Leaf(obj), d.cursor, q);
    }
  }

  /** In a forest, a lookup of `q` reads key `k` of the node at `ks` only when
      `ks + [k]` is a prefix of `q`. */
  lemma LastWriteUnread<V>(h: Heap<V>, a: Ref, x: Ref, ks: seq<string>, k: string, q: seq<string>)
    requires Valid(h) && a < |h| && Lookup(h, Sub(a), ks) == Some(Sub(x))
    requires !IsPrefix(ks + [k], q)
    ensures forall j :: 0 <= j < |q| && Lookup(h, Sub(a), q[..j]) == Some(Sub(x)) ==> q[j] != k
  {
    forall j | 0 <= j < |q| && Lookup(h, Sub(a), q[..j]) == Some(Sub(x))
      ensures q[j] != k
    {
      PathUnique(h, a, x, q[..j], ks);
      assert q[..j + 1] == q[..j] + [q[j]];
    }
  }

  /** Lookups from a node that shares no descendant with the cursor are unchanged. */
  lemma StoreKeepsDisjoint<V>(h: Heap<V>, d: Decorator<V>, keys: seq<string>, obj: V, s: Ref, q: seq<string>)
    requires Valid(h) && Live(h, d.cursor) && |keys| >= 1 && s < |h|
    requires forall x: int :: 0 <= x < |h| && Reach(h, Sub(s), x) ==> !Reach(h, d.cursor, x)
    ensures Lookup(Store(h, d, keys, obj).heap, Sub(s), q) == Lookup(h, Sub(s), q)
  {
    var r := Store(h, d, keys, obj);
    forall x: int | 0 <= x < |h| && Reach(h, Sub(s), x) ensures r.heap[x] == h[x] {
      if r.heap[x] != h[x] {
        StoreTouches(h, d, keys, obj, x);
      }
    }
    UnreachedFrame(h, r.heap, Sub(s), q);
  }

  // ---------------------------------------------------------------------------
  // Partitions

  /** Only `REGISTRY` holds a partition node: no path from another node reaches one. */
  lemma PartitionHasNoOtherParent<V>(h: Heap<V>, b: Ref, q: seq<string>, p: Partition)
    requires Valid(h) && PartitionsIntact(h) && 1 <= b < |h|
    requires Lookup(h, Sub(b), q) == Some(Root(p))
    ensures q == [] && b == RootRef(p)
  {
    if q != [] {
      var q', k := q[..|q| - 1], q[|q| - 1];
      assert q == q' + [k];
      LookupSnoc(h, Sub(b), q', k);
      var y := Lookup(h, Sub(b), q').value;
      LookupDescends(h, Sub(b), q');
      assert SameChild(h, y.ref, k, RegistryRef, Key(p));
      assert false;
    }
  }

  /** The three partitions share no node. */
  lemma PartitionsDisjoint<V>(h: Heap<V>, p: Partition, p': Partition, x: Ref)
    requires Valid(h) && PartitionsIntact(h) && p != p'
    requires Reach(h, Root(p), x)
    ensures !Reach(h, Root(p'), x)
  {
    if Reach(h, Root(p'), x) {
      var a := RootRef(p);
      var b := RootRef(p');
      var pa :| Lookup(h, Sub(a), pa) == Some(Sub(x));
      var pb :| Lookup(h, Sub(b), pb) == Some(Sub(x));
      if |pa| <= |pb| {
        Converge(h, a, b, x, pa, pb);
        PartitionHasNoOtherParent(h, b, pb[..|pb| - |pa|], p);
      } else {
        Converge(h, b, a, x, pb, pa);
        PartitionHasNoOtherParent(h, a, pa[..|pa| - |pb|], p');
      }
      assert false;
    }
  }

  /** A decorator inside a partition never writes to `REGISTRY` itself, which keeps
      its three partitions. */
  lemma StoreKeepsRegistry<V>(h: Heap<V>, d: Decorator<V>, keys: seq<string>, obj: V, p: Partition)
    requires Valid(h) && PartitionsIntact(h) && Live(h, d.cursor) && |keys| >= 1 && Within(h, d, p)
    ensures PartitionsIntact(Store(h, d, keys, obj).heap)
  {
    if Store(h, d, keys, obj).heap[RegistryRef] != h[RegistryRef] {
      StoreTouches(h, d, keys, obj, RegistryRef);
      var pc :| Lookup(h, Root(p), pc) == Some(d.cursor);
      var pr :| Lookup(h, d.cursor, pr) == Some(Sub(RegistryRef));
      LookupDescends(h, Root(p), pc);
      LookupDescends(h, d.cursor, pr);
      assert false;
    }
  }

  /** A decorator inside partition `p` leaves every other partition as it was. */
  lemma StoreKeepsOtherPartition<V>(h: Heap<V>, d: Decorator<V>, keys: seq<string>, obj: V, p: Partition, p': Partition, q: seq<string>)
    requires Valid(h) && PartitionsIntact(h) && Live(h, d.cursor) && |keys| >= 1 && Within(h, d, p) && p != p'
    ensures Lookup(Store(h, d, keys, obj).heap, Root(p'), q) == Lookup(h, Root(p'), q)
  {
    if d.cursor.Sub? {
      forall x: int | 0 <= x < |h| && Reach(h, Sub(RootRef(p')), x) ensures !Reach(h, d.cursor, x) {
        PartitionsDisjoint(h, p', p, x);
        if Reach(h, d.cursor, x) {
          ReachTrans(h, Root(p), d.cursor.ref, x);
        }
      }
      StoreKeepsDisjoint(h, d, keys, obj, RootRef(p'), q);
    }
  }

  /** After a call the decorator is still inside its partition: the cursor only ever
      moves down. */
  lemma StoreStaysWithin<V>(h: Heap<V>, d: Decorator<V>, keys: seq<string>, obj: V, p: Partition)
    requires Valid(h) && PartitionsIntact(h) && Live(h, d.cursor) && |keys| >= 1 && Within(h, d, p)
    ensures Within(Store(h, d, keys, obj).heap, Store(h, d, keys, obj).decorator, p)
  {
    var r := Store(h, d, keys, obj);
    if r.outcome.Returned? {
      var pc :| Lookup(h, Root(p), pc) == Some(d.cursor);
      StoreNests(h, d, keys, obj, Root(p), pc);
    }
  }
}
