/**
 The registrar of `prefect.utilities.plugins`: the process-wide `REGISTRY` with its
 three partitions, the `_register` decorator factory, the decorator it returns,
 and the `register_api` / `register_model` / `register_plugin` wrappers.

 The decorator closes over `name` and over a `nonlocal registry` reference that it
 rebinds while it descends. A decorator is therefore modelled as the pair
 (name, cursor), and applying it returns the updated heap, the updated decorator
 and what the call returned or raised.
 */
module Registrar {
  import opened Namespace
  import opened DottedName

  /** The separator of dotted names. */
  const Separator: char := '.'

  // ---------------------------------------------------------------------------
  // The registry and its partitions

  datatype Partition = Api | Models | Plugins

  /** The attribute of `REGISTRY` that holds a partition. */
  function Key(p: Partition): string {
    match p
    case Api => "api"
    case Models => "models"
    case Plugins => "plugins"
  }

  /** `REGISTRY` is numbered first, before the partitions it holds. */
  const RegistryRef: Ref := 0

  /** The nodes `API`, `MODELS` and `PLUGINS`, numbered after `REGISTRY`. */
  function RootRef(p: Partition): Ref {
    match p
    case Api => 1
    case Models => 2
    case Plugins => 3
  }

  function Root<V>(p: Partition): Entry<V> {
    Sub(RootRef(p))
  }

  /** The contents of `REGISTRY`: one key per partition. */
  function RegistryNode<V>(): Node<V> {
    map[Key(Api) := Root(Api), Key(Models) := Root(Models), Key(Plugins) := Root(Plugins)]
  }

  /** `REGISTRY` still holds exactly the three partitions it was created with. */
  ghost predicate PartitionsIntact<V>(h: Heap<V>) {
    |h| >= 4 && h[RegistryRef] == RegistryNode()
  }

  /** `REGISTRY.<key of p>` is the partition node. */
  lemma PartitionLookup<V>(h: Heap<V>, p: Partition)
    requires PartitionsIntact(h)
    ensures Lookup(h, Sub(RegistryRef), [Key(p)]) == Some(Root(p))
  {
  }

  /** The heap at import time: `REGISTRY` holding three fresh empty partition
      nodes, which `API`, `MODELS` and `PLUGINS` name. */
  function Initial<V>(): (h: Heap<V>)
    ensures Valid(h) && PartitionsIntact(h)
    ensures forall p: Partition :: Lookup(h, Sub(RegistryRef), [Key(p)]) == Some(Root(p))
    ensures forall p: Partition, k :: Step(h, Root(p), k) == None
  {
    [RegistryNode(), map[], map[], map[]]
  }

  /** `e` is what `REGISTRY.<key of p>` holds at import time, when the module-level
      `API`, `MODELS` and `PLUGINS` are bound. */
  ghost predicate NamesPartition<V>(p: Partition, e: Entry<V>) {
    Lookup(Initial<V>(), Sub(RegistryRef), [Key(p)]) == Some(e)
  }

  // ---------------------------------------------------------------------------
  // Decorators

  /** Why a registration raised: `setdefault` or item assignment reached on a
      registered object rather than on a namespace node. */
  datatype Fault =
    | NoSetDefault(key: string)       // AttributeError: an object has no `setdefault`
    | NoItemAssignment(key: string)   // TypeError: an object takes no item assignment

  /** What a decorator call did: returned a value, or raised. */
  datatype Outcome<V> = Returned(value: V) | Raised(fault: Fault)

  /** The inner `_register` closure: its `name` and its `nonlocal registry`. */
  datatype Decorator<V> = Decorator(name: string, cursor: Entry<V>)

  /** The state after some setdefault steps. */
  datatype Walked<V> = Walked(heap: Heap<V>, cursor: Entry<V>, fault: Option<Fault>)

  /** The state after a decorator call. */
  datatype Applied<V> = Applied(heap: Heap<V>, decorator: Decorator<V>, outcome: Outcome<V>)

  /** `_register(name, registry)`: the decorator, not yet applied. It closes over
      `name`, and its cursor starts at `registry`. */
  function Register<V>(name: string, registry: Entry<V>): (d: Decorator<V>)
  {
    Decorator(name, registry)
  }

  /** `register_api(name)`: a decorator for `name` over the node `API`. */
  function RegisterApi<V>(name: string): (d: Decorator<V>)
    ensures d.name == name && NamesPartition(Api, d.cursor)
  {
    Register(name, Root(Api))
  }

  /** `register_model(name)`: a decorator for `name` over the node `MODELS`. */
  function RegisterModel<V>(name: string): (d: Decorator<V>)
    ensures d.name == name && NamesPartition(Models, d.cursor)
  {
    Register(name, Root(Models))
  }

  /** `register_plugin(name)`: a decorator for `name` over the node `PLUGINS`. */
  function RegisterPlugin<V>(name: string): (d: Decorator<V>)
    ensures d.name == name && NamesPartition(Plugins, d.cursor)
  {
    Register(name, Root(Plugins))
  }

  /** The decorator a `register_*` call builds for partition `p`. */
  function RegisterIn<V>(p: Partition, name: string): (d: Decorator<V>)
    ensures d.name == name && NamesPartition(p, d.cursor)
  {
    match p
    case Api => RegisterApi(name)
    case Models => RegisterModel(name)
    case Plugins => RegisterPlugin(name)
  }

  /** The keys of a dotted name: one more than the name has dots, none containing a
      dot (joined with dots they give the name back: `JoinSplit`). */
  function Keys(name: string): (ks: seq<string>)
    ensures |ks| == Count(name, Separator) + 1
    ensures forall i :: 0 <= i < |ks| ==> Separator !in ks[i]
  {
    Split(name, Separator)
  }

  /** `setdefault` of `key` with a fresh empty node as default: on a node, the entry under `key`, created as a
      fresh empty node when missing; on a registered object, an AttributeError. */
  function SetDefault<V>(h: Heap<V>, cursor: Entry<V>, key: string): (r: Walked<V>)
    requires Valid(h) && Live(h, cursor)
    ensures Valid(r.heap) && Live(r.heap, r.cursor) && Grows(h, r.heap)
    ensures r.fault.Some? <==> cursor.Leaf?
    ensures r.fault.Some? ==> r.heap == h && r.cursor == cursor
    ensures r.fault.None? ==> Lookup(r.heap, cursor, [key]) == Some(r.cursor)
    ensures Lookup(h, cursor, [key]).Some? ==> r.heap == h
    ensures r.heap != h ==> |r.heap| == |h| + 1 && r.cursor == Sub(|h|) && r.heap[|h|] == map[]
    ensures forall y :: 0 <= y < |h| && r.heap[y] != h[y] ==> cursor == Sub(y)
  {
    match cursor
    case Leaf(_) => Walked(h, cursor, Some(NoSetDefault(key)))
    case Sub(x) =>
      if key in h[x] then Walked(h, h[x][key], None)
      else
        var h' := h[x := h[x][key := Sub(|h|)]] + [map[]];
        AddChildValid(h, x, key);
        assert Lookup(h', cursor, [key]) == Some(Sub(|h|)) by {
          assert [key][1..] == [];
        }
        Walked(h', Sub(|h|), None)
  }

  /** The loop over all but the last key, rebinding the cursor to whatever each
      `setdefault` returns; it stops at the first fault. */
  function Descend<V>(h: Heap<V>, c: Entry<V>, ks: seq<string>): (r: Walked<V>)
    requires Valid(h) && Live(h, c)
    ensures Valid(r.heap) && Live(r.heap, r.cursor) && Grows(h, r.heap)
    ensures r.fault.Some? ==> r.heap == h && r.cursor.Leaf?
    ensures r.fault.None? ==> Lookup(r.heap, c, ks) == Some(r.cursor)
    ensures c.Sub? && h[c.ref] == map[] ==> r.fault.None? && r.cursor.Sub?
    ensures r.cursor.Leaf? ==> r.heap == h
    decreases |ks|
  {
    if ks == [] then Walked(h, c, None)
    else
      var s := SetDefault(h, c, ks[0]);
      if s.fault.Some? then s
      else
        var r := Descend(s.heap, s.cursor, ks[1..]);
        GrowsTrans(h, s.heap, r.heap);
        if r.fault.None? then
          GrowsLookup(s.heap, r.heap, c, [ks[0]]);
          LookupAppend(r.heap, c, [ks[0]], ks[1..]);
          assert [ks[0]] + ks[1..] == ks;
          r
        else
          r
  }

  /** The inner `_register(obj)`: split the name and run the body on its keys. */
  function Apply<V>(h: Heap<V>, d: Decorator<V>, obj: V): (r: Applied<V>)
    requires Valid(h) && Live(h, d.cursor)
    ensures Valid(r.heap) && Live(r.heap, r.decorator.cursor) && |h| <= |r.heap|
    ensures r.decorator.name == d.name
    ensures r.outcome.Returned? ==> r.outcome.value == obj
    ensures r.outcome.Returned? ==> Lookup(r.heap, d.cursor, Keys(d.name)) == Some(Leaf(obj))
    ensures r.outcome.Raised? ==> r.heap == h && r.decorator.cursor.Leaf?
  {
    Store(h, d, Keys(d.name), obj)
  }

  /** The body of the inner `_register(obj)` once the name is split into `keys`
      (never empty): descend through all but the last key, assign `obj` at the last
      key of the node reached, rebind the cursor to that node and return `obj`. */
  function Store<V>(h: Heap<V>, d: Decorator<V>, keys: seq<string>, obj: V): (r: Applied<V>)
    requires Valid(h) && Live(h, d.cursor) && |keys| >= 1
    ensures Valid(r.heap) && Live(r.heap, r.decorator.cursor) && |h| <= |r.heap|
    ensures r.decorator.name == d.name
    ensures r.outcome.Returned? ==> r.outcome.value == obj && d.cursor.Sub? && r.decorator.cursor.Sub?
    ensures r.outcome.Returned? ==>
      && Lookup(r.heap, d.cursor, keys[..|keys| - 1]) == Some(r.decorator.cursor)
      && Lookup(r.heap, d.cursor, keys) == Some(Leaf(obj))
    ensures r.outcome.Raised? ==> r.heap == h && r.decorator.cursor.Leaf?
  {
    var ks := keys[..|keys| - 1];
    var last := keys[|keys| - 1];
    var w := Descend(h, d.cursor, ks);
    if w.fault.Some? then
      Applied(w.heap, Decorator(d.name, w.cursor), Raised(w.fault.value))
    else
      match w.cursor
      case Leaf(_) => Applied(w.heap, Decorator(d.name, w.cursor), Raised(NoItemAssignment(last)))
      case Sub(x) =>
        var h2 := w.heap[x := w.heap[x][last := Leaf(obj)]];
        AssignLeafValid(w.heap, x, last, obj);
        AssignKeepsAncestors(w.heap, x, last, Leaf(obj), d.cursor, ks, x);
        assert keys == ks + [last];
        LookupSnoc(h2, d.cursor, ks, last);
        Applied(h2, Decorator(d.name, w.cursor), Returned(obj))
  }
}
