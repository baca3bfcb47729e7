/**
 What `register_api`, `register_model` and `register_plugin` promise their callers:
 the object comes back unchanged and can be found under its partition and dotted
 name, registering again under the same name overwrites it, a name without dots is
 stored directly in the partition, and an object on an intermediate segment makes
 registration raise. Also the behaviour of applying one decorator twice, whose
 `nonlocal registry` has moved down after the first call.
 */
module Registration {
  import opened Namespace
  import opened DottedName
  import opened Registrar
  import opened RegistrarProperties

  /** A `register_*` decorator starts at its partition node. */
  lemma RegisterWithin<V>(h: Heap<V>, p: Partition, name: string)
    requires PartitionsIntact(h)
    ensures RegisterIn<V>(p, name) == Decorator(name, Root(p))
    ensures Live(h, RegisterIn<V>(p, name).cursor) && Within(h, RegisterIn<V>(p, name), p)
  {
    assert Lookup(h, Root<V>(p), []) == Some(Root(p));
  }

  /** Registering with `register_api` / `register_model` / `register_plugin`: the call
      returns exactly when no proper prefix of the dotted name holds an object in that
      partition, it then returns the object itself, which is found at
      `REGISTRY.<partition>.<name>`, and `REGISTRY` keeps its three partitions. */
  lemma RegisterRoundTrip<V>(h: Heap<V>, p: Partition, name: string, obj: V)
    requires Valid(h) && PartitionsIntact(h)
    ensures var r := Apply(h, RegisterIn(p, name), obj);
      && (r.outcome.Returned? <==> Passable(h, Root(p), Keys(name)))
      && (r.outcome.Returned? ==> r.outcome == Returned(obj))
      && (r.outcome.Returned? ==> Lookup(r.heap, Sub(RegistryRef), [Key(p)] + Keys(name)) == Some(Leaf(obj)))
      && PartitionsIntact(r.heap)
  {
    var d := RegisterIn<V>(p, name);
    RegisterWithin(h, p, name);
    StoreOutcome(h, d, Keys(name), obj);
    StoreKeepsRegistry(h, d, Keys(name), obj, p);
    if Apply(h, d, obj).outcome.Returned? {
      PartitionLookup(h, p);
      StoreNests(h, d, Keys(name), obj, Sub(RegistryRef), [Key(p)]);
    }
  }

  /** Registering in one partition leaves every lookup in the other two unchanged. */
  lemma RegisterIsolated<V>(h: Heap<V>, p: Partition, p': Partition, name: string, obj: V, q: seq<string>)
    requires Valid(h) && PartitionsIntact(h) && p != p'
    ensures Lookup(Apply(h, RegisterIn(p, name), obj).heap, Root(p'), q) == Lookup(h, Root(p'), q)
  {
    RegisterWithin(h, p, name);
    StoreKeepsOtherPartition(h, RegisterIn(p, name), Keys(name), obj, p, p', q);
  }

  /** Registering `name` in partition `p` leaves every path of `p` that is neither a
      prefix nor an extension of the name as it was: siblings, and objects
      registered earlier under a shared prefix, stay where they are. */
  lemma RegisterKeepsUnrelated<V>(h: Heap<V>, p: Partition, name: string, obj: V, q: seq<string>)
    requires Valid(h) && PartitionsIntact(h)
    requires !IsPrefix(q, Keys(name)) && !IsPrefix(Keys(name), q)
    ensures var r := Apply(h, RegisterIn(p, name), obj);
      Lookup(r.heap, Sub(RegistryRef), [Key(p)] + q) == Lookup(h, Sub(RegistryRef), [Key(p)] + q)
  {
    var r := Apply(h, RegisterIn(p, name), obj);
    RegisterWithin(h, p, name);
    RegisterRoundTrip(h, p, name, obj);
    StoreKeepsUnrelated(h, RegisterIn(p, name), Keys(name), obj, q);
    PartitionLookup(h, p);
    PartitionLookup(r.heap, p);
    LookupAppend(h, Sub(RegistryRef), [Key(p)], q);
    LookupAppend(r.heap, Sub(RegistryRef), [Key(p)], q);
  }

  /** Registering a second object under a name that was registered successfully
      succeeds, creates no node and only replaces the object: the last registration
      wins. */
  lemma RegisterOverwrites<V>(h: Heap<V>, p: Partition, name: string, o1: V, o2: V)
    requires Valid(h) && PartitionsIntact(h)
    requires Apply(h, RegisterIn(p, name), o1).outcome.Returned?
    ensures var r1 := Apply(h, RegisterIn(p, name), o1);
      var r2 := Apply(r1.heap, RegisterIn(p, name), o2);
      var x := r1.decorator.cursor.ref;
      var keys := Keys(name);
      && r2.outcome == Returned(o2)
      && r2.heap == r1.heap[x := r1.heap[x][keys[|keys| - 1] := Leaf(o2)]]
      && Lookup(r2.heap, Sub(RegistryRef), [Key(p)] + keys) == Some(Leaf(o2))
  {
    var d := RegisterIn<V>(p, name);
    var keys := Keys(name);
    var r1 := Apply(h, d, o1);
    assert Valid(r1.heap) && PartitionsIntact(r1.heap) && Live(r1.heap, d.cursor)
      && Lookup(r1.heap, d.cursor, keys[..|keys| - 1]) == Some(r1.decorator.cursor) by {
      RegisterWithin(h, p, name);
      RegisterRoundTrip(h, p, name, o1);
    }
    StoreReuses(r1.heap, d, keys, o2, r1.decorator.cursor.ref);
    RegisterRoundTrip(r1.heap, p, name, o2);
  }

  /** A name without a dot is stored directly in the node the decorator points at,
      and nothing else changes. */
  lemma SingleSegment<V>(h: Heap<V>, d: Decorator<V>, obj: V)
    requires Valid(h) && d.cursor.Sub? && d.cursor.ref < |h| && Separator !in d.name
    ensures var x := d.cursor.ref;
      Apply(h, d, obj) == Applied(h[x := h[x][d.name := Leaf(obj)]], d, Returned(obj))
  {
    SplitWithoutSeparator(d.name, Separator);
    assert Keys(d.name)[..0] == [];
  }

  /** An object on a proper prefix of the dotted name makes the call raise instead
      of replacing the object: the AttributeError of `setdefault` for an intermediate
      key, the TypeError of the item assignment at the last one. Nothing changes. */
  lemma RegisterBlocked<V>(h: Heap<V>, d: Decorator<V>, obj: V, i: int, o: V)
    requires Valid(h) && Live(h, d.cursor)
    requires 0 <= i < |Keys(d.name)| && Lookup(h, d.cursor, Keys(d.name)[..i]) == Some(Leaf(o))
    ensures var r := Apply(h, d, obj); var keys := Keys(d.name);
      && r.heap == h
      && r.outcome == Raised(if i < |keys| - 1 then NoSetDefault(keys[i]) else NoItemAssignment(keys[|keys| - 1]))
  {
    StoreBlocked(h, d, Keys(d.name), obj, i, o);
  }

  /** A call that raised changed nothing, and the same decorator raises on every later
      call without changing anything. */
  lemma ApplyFailure<V>(h: Heap<V>, d: Decorator<V>, obj: V, obj2: V)
    requires Valid(h) && Live(h, d.cursor)
    requires Apply(h, d, obj).outcome.Raised?
    ensures var r := Apply(h, d, obj);
      && r.heap == h
      && Apply(r.heap, r.decorator, obj2).outcome.Raised?
      && Apply(r.heap, r.decorator, obj2).heap == h
  {
  }

  /** Applying the same decorator again starts where the first call left the cursor:
      the second object is stored under the name's parent path followed by the whole
      name again, if no object is in the way. */
  lemma ReapplyNests<V>(h: Heap<V>, d: Decorator<V>, o1: V, o2: V, s: Entry<V>, p: seq<string>)
    requires Valid(h) && Live(h, d.cursor) && Live(h, s) && Lookup(h, s, p) == Some(d.cursor)
    requires Apply(h, d, o1).outcome.Returned?
    ensures var r1 := Apply(h, d, o1);
      var r2 := Apply(r1.heap, r1.decorator, o2);
      var keys := Keys(d.name);
      && Lookup(r1.heap, s, p + keys[..|keys| - 1]) == Some(r1.decorator.cursor)
      && (r2.outcome.Returned? <==> Passable(r1.heap, r1.decorator.cursor, keys))
      && (r2.outcome.Returned? ==> Lookup(r2.heap, s, p + keys[..|keys| - 1] + keys) == Some(Leaf(o2)))
  {
    var keys := Keys(d.name);
    var r1 := Apply(h, d, o1);
    StoreNests(h, d, keys, o1, s, p);
    StoreOutcome(r1.heap, r1.decorator, keys, o2);
    if Apply(r1.heap, r1.decorator, o2).outcome.Returned? {
      StoreNests(r1.heap, r1.decorator, keys, o2, s, p + keys[..|keys| - 1]);
    }
  }

  // ---------------------------------------------------------------------------
  // Worked examples

  /** The keys of `"fns.my_fn"`. */
  lemma FnsMyFnKeys()
    ensures Keys("fns.my_fn") == ["fns", "my_fn"]
  {
    SplitJoin(["fns", "my_fn"], Separator);
    assert Join(["fns", "my_fn"], Separator) == "fns.my_fn";
  }

  /** The documented use: `@register_api("fns.my_fn")` on a fresh registry creates the
      namespace `fns` in `API` and makes the function available as
      `REGISTRY.api.fns.my_fn`. Stated for any name with those keys, of which
      `"fns.my_fn"` is one (`FnsMyFnKeys`). */
  lemma DocExample<V>(name: string, obj: V)
    requires Keys(name) == ["fns", "my_fn"]
    ensures var r := Apply(Initial<V>(), RegisterApi(name), obj);
      && r.outcome == Returned(obj)
      && Lookup(r.heap, Sub(RegistryRef), ["api", "fns", "my_fn"]) == Some(Leaf(obj))
      && |r.heap| == |Initial<V>()| + 1
  {
    var h := Initial<V>();
    var keys := Keys(name);
    assert Passable(h, Root(Api), keys) by {
      assert keys[..1] == ["fns"];
    }
    RegisterRoundTrip(h, Api, name, obj);
    assert [Key(Api)] + keys == ["api", "fns", "my_fn"];
    // The loop runs once and creates `fns`.
    var s := SetDefault(h, Root(Api), "fns");
    assert |s.heap| == |h| + 1;
    DescendFirst(h, Root(Api), keys[..1]);
    assert keys[..1][1..] == [];
  }

  /** The documented call itself: `@register_api("fns.my_fn")` on a fresh registry
      returns the function and makes it `REGISTRY.api.fns.my_fn`. */
  lemma DocCall<V>(f: V)
    ensures var r := Apply(Initial<V>(), RegisterApi("fns.my_fn"), f);
      && r.outcome == Returned(f)
      && Lookup(r.heap, Sub(RegistryRef), ["api", "fns", "my_fn"]) == Some(Leaf(f))
  {
    FnsMyFnKeys();
    DocExample("fns.my_fn", f);
  }

  /** Applying the decorator of `register_api("fns.my_fn")` a second time stores the
      second object at `REGISTRY.api.fns.fns.my_fn` (`ReuseKeepsFirst`: next to the
      first one). */
  lemma DecoratorReuseExample<V>(name: string, o1: V, o2: V)
    requires Keys(name) == ["fns", "my_fn"]
    ensures var r1 := Apply(Initial<V>(), RegisterApi(name), o1);
      var r2 := Apply(r1.heap, r1.decorator, o2);
      && r2.outcome == Returned(o2)
      && Lookup(r2.heap, Sub(RegistryRef), ["api", "fns", "fns", "my_fn"]) == Some(Leaf(o2))
  {
    var h := Initial<V>();
    var d := RegisterApi<V>(name);
    var keys := Keys(name);
    var r1 := Apply(h, d, o1);
    var r2 := Apply(r1.heap, r1.decorator, o2);
    assert r2.outcome.Returned? && Lookup(r2.heap, Sub(RegistryRef), ["api"] + keys[..1] + keys) == Some(Leaf(o2)) by {
      ReuseFirstCall(name, o1);
      PartitionLookup(h, Api);
      ReapplyNests(h, d, o1, o2, Sub(RegistryRef), ["api"]);
    }
    ReusePath(keys);
  }

  /** The path of the second registration in `DecoratorReuseExample`. */
  lemma ReusePath(keys: seq<string>)
    requires keys == ["fns", "my_fn"]
    ensures ["api"] + keys[..1] + keys == ["api", "fns", "fns", "my_fn"]
  {
  }

  /** The second call of the reused decorator leaves the first object in place. */
  lemma ReuseKeepsFirst<V>(name: string, o1: V, o2: V)
    requires Keys(name) == ["fns", "my_fn"]
    ensures var r1 := Apply(Initial<V>(), RegisterApi(name), o1);
      var r2 := Apply(r1.heap, r1.decorator, o2);
      Lookup(r2.heap, Sub(RegistryRef), ["api", "fns", "my_fn"]) == Some(Leaf(o1))
  {
    var r1 := Apply(Initial<V>(), RegisterApi<V>(name), o1);
    var keys := Keys(name);
    var h2 := Apply(r1.heap, r1.decorator, o2).heap;
    assert Lookup(h2, Sub(RegistryRef), ["api", "fns"] + ["my_fn"]) == Some(Leaf(o1)) by {
      ReuseFirstCall(name, o1);
      StoreKeepsSibling(r1.heap, r1.decorator, keys, o2, Sub(RegistryRef), ["api", "fns"], "my_fn");
    }
    MyFnPath();
  }

  /** The path of the first registration, as a path to `fns` and one more key. */
  lemma MyFnPath()
    ensures ["api", "fns"] + ["my_fn"] == ["api", "fns", "my_fn"]
  {
  }

  /** A key of the decorator's node other than the first key of a call keeps its
      entry, read through any path to that node. */
  lemma StoreKeepsSibling<V>(h: Heap<V>, d: Decorator<V>, keys: seq<string>, obj: V, s: Entry<V>, p: seq<string>, k: string)
    requires Valid(h) && Live(h, d.cursor) && |keys| >= 1 && Live(h, s) && k != keys[0]
    requires Lookup(h, s, p) == Some(d.cursor)
    ensures Lookup(Store(h, d, keys, obj).heap, s, p + [k]) == Lookup(h, d.cursor, [k])
  {
    var h2 := Store(h, d, keys, obj).heap;
    StoreKeepsUnrelated(h, d, keys, obj, [k]);
    StoreKeepsPath(h, d, keys, obj, s, p);
    LookupAppend(h2, s, p, [k]);
  }

  /** After the documented call the decorator points at `fns`, which holds only
      `my_fn`: the second call can descend. */
  lemma ReuseFirstCall<V>(name: string, o1: V)
    requires Keys(name) == ["fns", "my_fn"]
    ensures var r1 := Apply(Initial<V>(), RegisterApi(name), o1);
      var fns := r1.decorator.cursor;
      && Lookup(r1.heap, Sub(RegistryRef), ["api", "fns"]) == Some(fns)
      && Lookup(r1.heap, fns, ["my_fn"]) == Some(Leaf(o1))
      && Passable(r1.heap, fns, ["fns", "my_fn"])
  {
    var h := Initial<V>();
    var d := RegisterApi<V>(name);
    var r1 := Apply(h, d, o1);
    var keys := Keys(name);
    var fns := r1.decorator.cursor;
    DocExample<V>(name, o1);
    PartitionLookup(h, Api);
    StoreNests(h, d, keys, o1, Sub(RegistryRef), ["api"]);
    assert ["api"] + keys[..1] == ["api", "fns"];
    LookupAppend(r1.heap, Sub(RegistryRef), ["api", "fns"], ["my_fn"]);
    assert ["api", "fns"] + ["my_fn"] == ["api", "fns", "my_fn"];
    // `fns` was created by this call, so it holds nothing but `my_fn`.
    assert fns == Sub(|h|) by {
      StoreFresh(h, d, keys, o1, |h|);
      var i :| 0 <= i < |keys| && Lookup(r1.heap, d.cursor, keys[..i]) == Some(Sub(|h|));
      assert keys[..0] == [] && keys[..1] == ["fns"];
      StoreKeepsWalked(h, d, keys, o1, 1);
    }
    assert Passable(r1.heap, fns, keys) by {
      assert keys[..1] == ["fns"];
      assert Lookup(r1.heap, fns, ["fns"]) == None;
    }
  }
}
