# Plugin registry of `prefect.utilities.plugins`, modelled in Dafny

The module keeps one process-wide namespace, `REGISTRY`. It has three partitions: `api`, `models` and `plugins`. `API`, `MODELS` and `PLUGINS` name these partitions.

`register_api(name)`, `register_model(name)` and `register_plugin(name)` each build a decorator with `_register(name, partition)`. Applying the decorator to an object does four things:

1. It splits the dotted name on `.`.
2. It walks every key but the last, calling `setdefault` with a fresh empty node at each step.
3. It assigns the object at the last key.
4. It returns the object.

This project models that behaviour and proves what it guarantees to callers.

## How the model is built

- **Namespace nodes have identity** (`namespace.dfy`, module `Namespace`).
  - A `Box` node is a `map<string, Entry>`. An `Entry` is either a child node (`Sub(ref)`) or a registered object (`Leaf(obj)`). Objects have an opaque type `V`.
  - All nodes live in a heap `seq<Node>`, and a node's identity is its position. Positions are a numbering in which every parent precedes its children. The fresh `Box()` that a registration creates is appended to the heap.
  - `Valid` says the heap is a forest in which every child is numbered after its parent.
  - `Lookup` is the partial attribute-path read: `None` when a segment is missing or lands on an object.
  - The heap is needed because the decorator's `nonlocal registry` is a reference to a node, and it survives between calls.
- **Dotted names** (`dotted_name.dfy`, module `DottedName`).
  - `Split` follows Python's `str.split` for a one-character separator: `""` gives `[""]` and `"a..b"` gives `["a", "", "b"]`.
  - `Join` is its inverse.
- **The registrar** (`registrar.dfy`, module `Registrar`).
  - `Initial` is the heap at import time, with `REGISTRY` at node 0 and the partitions at nodes 1-3.
  - A decorator is a record (name, cursor), where the cursor is the closure's `registry`.
  - `Apply` runs one call of the decorator. It returns the new heap, the decorator with its rebound cursor, and an `Outcome`: `Returned(obj)` or `Raised(fault)`.
  - `Store` is the same call with the name already split. `SetDefault` is one `setdefault`, and `Descend` is the loop.
- **Properties**: `registrar_properties.dfy` (module `RegistrarProperties`) states facts about one call on any keys. `registration.dfy` (module `Registration`) states them for the three `register_*` entry points, together with two worked examples.

Two behaviours of the code are modelled as written:

- **An object on an intermediate segment.** `setdefault` hands back the object, and the next `setdefault` or the final item assignment raises. The model returns `Raised(NoSetDefault(key))` or `Raised(NoItemAssignment(key))` and proves that nothing changed. The object is never replaced.
- **A decorator applied twice.** The closure rebinds `registry` while it descends, so a second call starts from the node the first call reached, not from the partition root. The decorator record carries this cursor.

Two further facts about the code follow from these:

- **Registration is not total.** An object on an intermediate segment makes the call raise, as described above.
- **Names are not validated.** The empty name registers under the key `""`, and `"a..b"` registers under `a`, then `""`, then `b`.

## Model

| member | source | states |
|---|---|---|
| DottedName.Split | src/prefect/utilities/plugins.py:28 | `name.split(".")` has one more part than the name has dots, and no part contains a dot |
| DottedName.JoinSplit | src/prefect/utilities/plugins.py:28 | joining the keys of a name with dots gives back the name, so no information is lost by splitting |
| DottedName.SplitJoin | src/prefect/utilities/plugins.py:28 | every non-empty list of dot-free keys is the split of exactly one name (its join) |
| DottedName.SplitWithoutSeparator | src/prefect/utilities/plugins.py:28 | a name without a dot splits into the one-key list of itself |
| Namespace.Lookup | src/prefect/utilities/plugins.py:48 | the attribute read `API.fns.my_fn`: each segment steps to the entry held under that key of the current node, and the read fails (`None`) when a segment is missing or lands on an object. It carries no contract of its own; `Namespace.LookupAppend` states its law |
| Namespace.LookupAppend | src/prefect/utilities/plugins.py:48 | a chained read composes: reading `p + q` is reading `q` from wherever `p` leads, and fails when `p` does |
| Registrar.Initial | src/prefect/utilities/plugins.py:7-10 | the import-time registry is a valid forest; its keys `api`, `models` and `plugins` lead to the three partition nodes, which start empty |
| Registrar.PartitionLookup | src/prefect/utilities/plugins.py:8-10 | `REGISTRY.api`, `.models` and `.plugins` are the partition nodes in every registry that still holds its partitions |
| Registrar.RegisterApi | src/prefect/utilities/plugins.py:37-51 | `register_api(name)` builds a decorator for `name` whose registry is the node `REGISTRY.api` held at import time, that is `API` |
| Registrar.RegisterModel | src/prefect/utilities/plugins.py:54-55 | `register_model(name)` builds a decorator for `name` whose registry is `REGISTRY.models` at import time, that is `MODELS` |
| Registrar.RegisterPlugin | src/prefect/utilities/plugins.py:58-59 | `register_plugin(name)` builds a decorator for `name` whose registry is `REGISTRY.plugins` at import time, that is `PLUGINS` |
| Registrar.RegisterIn | src/prefect/utilities/plugins.py:37-59 | the `register_*` wrapper of partition `p` builds a decorator for `name` over the node `REGISTRY.<p>` held at import time |
| Registrar.Keys | src/prefect/utilities/plugins.py:28 | `name.split(".")` gives one more key than the name has dots, and no key contains a dot |
| Registrar.SetDefault | src/prefect/utilities/plugins.py:30 | `setdefault` raises exactly on an object. On a node, the key afterwards leads to the returned entry. An existing key changes nothing. A missing key adds exactly one fresh empty node, and only the cursor's node changes |
| Registrar.Descend | src/prefect/utilities/plugins.py:29-30 | the loop keeps the heap a forest and only adds entries that lead to fresh nodes. Without a fault, the keys lead from the start to the final cursor. A fault changes nothing and leaves the cursor on an object |
| Registrar.Store | src/prefect/utilities/plugins.py:27-32 | on return the value is the object itself, the cursor is the node under all but the last key, and the full key path leads to the object. Raising changes nothing and leaves the cursor on an object |
| Registrar.Apply | src/prefect/utilities/plugins.py:26-32 | a decorator call keeps the name and the forest. On return it gives back `obj`, and `obj` is found under the split name from the decorator's node. A call that raises changes nothing |
| RegistrarProperties.DescendPassable | src/prefect/utilities/plugins.py:29-30 | the loop raises exactly when some proper prefix of the keys already leads to an object |
| RegistrarProperties.DescendReuses | src/prefect/utilities/plugins.py:29-30 | when the keys already resolve, the loop creates nothing, changes nothing and ends on the node they lead to |
| RegistrarProperties.DescendFault | src/prefect/utilities/plugins.py:30 | an object at a prefix `ks[..i]` stops the loop with the `setdefault` error for key `ks[i]`. The heap is unchanged and the cursor is on the object |
| RegistrarProperties.DescendFresh | src/prefect/utilities/plugins.py:29-30 | every node the loop creates is the node of some prefix of the keys |
| RegistrarProperties.DescendTouches | src/prefect/utilities/plugins.py:29-30 | the loop changes only nodes reachable from where it starts |
| RegistrarProperties.DescendKeepsUnrelated | src/prefect/utilities/plugins.py:29-30 | a path that is not a prefix of the keys looks up the same after the loop |
| RegistrarProperties.StoreKeepsWalked | src/prefect/utilities/plugins.py:29-31 | the final assignment leaves the node of every proper prefix of the keys as the loop left it |
| RegistrarProperties.StorePassable | src/prefect/utilities/plugins.py:29-31 | after a successful call every proper prefix of the name leads to a namespace node (auto-created if missing) |
| RegistrarProperties.StoreKeepsPrefix | src/prefect/utilities/plugins.py:29-30 | an intermediate node that existed before the call is reused, not replaced: the prefix leads to the same node afterwards |
| RegistrarProperties.StoreFresh | src/prefect/utilities/plugins.py:29-30 | every node a call creates lies on the path of the name |
| RegistrarProperties.StoreReuses | src/prefect/utilities/plugins.py:29-32 | when all but the last key already lead to a node, the call is the single assignment of the object at the last key of that node, with the cursor moved there |
| RegistrarProperties.StoreOutcome | src/prefect/utilities/plugins.py:29-32 | a call returns exactly when no proper prefix of the keys leads to an object; both directions are proved |
| RegistrarProperties.RegisterRegisters | src/prefect/utilities/plugins.py:21-34 | the closure that `_register(name, registry)` returns registers its argument: applied to `obj` it returns exactly when no proper prefix of the name holds an object below `registry` (both directions), then gives back `obj` itself, found under the split name below `registry`; when it raises, nothing changed |
| RegistrarProperties.StoreBlocked | src/prefect/utilities/plugins.py:30-31 | an object at a proper prefix is never replaced. The call raises the `setdefault` fault for an intermediate key, or the item-assignment fault when the object sits at all but the last key. It changes nothing and leaves the cursor on the object |
| RegistrarProperties.StoreFailure | src/prefect/utilities/plugins.py:27-31 | after a failed call, every later call of the same decorator also raises and changes nothing |
| RegistrarProperties.StoreKeepsPath | src/prefect/utilities/plugins.py:29-31 | a path that led to the decorator's node still leads to it after the call |
| RegistrarProperties.StoreNests | src/prefect/utilities/plugins.py:27-31 | for every path `p` to the decorator's node, the object lands at `p` followed by the keys, and the cursor moves to `p` followed by all but the last key |
| RegistrarProperties.StoreTouches | src/prefect/utilities/plugins.py:29-31 | a call changes only nodes reachable from the decorator's node |
| RegistrarProperties.StoreKeepsUnrelated | src/prefect/utilities/plugins.py:29-31 | a path that is neither a prefix nor an extension of the name looks up the same after the call (siblings survive) |
| RegistrarProperties.LastWriteUnread | src/prefect/utilities/plugins.py:31 | a lookup reads the assigned key of the assigned node only along the registered path itself |
| RegistrarProperties.StoreKeepsDisjoint | src/prefect/utilities/plugins.py:29-31 | lookups from a node that shares no descendant with the decorator's node are unchanged |
| RegistrarProperties.PartitionHasNoOtherParent | src/prefect/utilities/plugins.py:7-10 | in a forest whose `REGISTRY` still holds its partitions, only `REGISTRY` leads to a partition node |
| RegistrarProperties.PartitionsDisjoint | src/prefect/utilities/plugins.py:7-10 | no node lies in two partitions |
| RegistrarProperties.StoreKeepsRegistry | src/prefect/utilities/plugins.py:7-10 | a decorator inside a partition never changes `REGISTRY` itself, which keeps its three partitions |
| RegistrarProperties.StoreKeepsOtherPartition | src/prefect/utilities/plugins.py:29-31 | a decorator inside one partition leaves every lookup in the other partitions unchanged |
| RegistrarProperties.StoreStaysWithin | src/prefect/utilities/plugins.py:27-30 | the rebound cursor stays inside the decorator's partition |
| Registration.RegisterWithin | src/prefect/utilities/plugins.py:51-59 | `register_api`, `register_model` and `register_plugin` build a decorator with the given name whose cursor is the matching partition node |
| Registration.RegisterRoundTrip | src/prefect/utilities/plugins.py:37-59 | registering in a partition returns exactly when no proper prefix of the name holds an object there. It then returns the object itself, which is found at `REGISTRY.<partition>.<name>`. `REGISTRY` keeps its partitions |
| Registration.RegisterIsolated | src/prefect/utilities/plugins.py:37-59 | registering in one partition leaves every lookup in the other two unchanged |
| Registration.RegisterKeepsUnrelated | src/prefect/utilities/plugins.py:29-31 | every path of the partition that is neither a prefix nor an extension of the name looks up the same afterwards |
| Registration.RegisterOverwrites | src/prefect/utilities/plugins.py:31 | registering a second object under a name that was registered succeeds and creates no node. It only replaces the object, so lookup gives the second one |
| Registration.SingleSegment | src/prefect/utilities/plugins.py:28-32 | a name without a dot is stored directly in the decorator's node: the call is exactly that one assignment, and it returns the object |
| Registration.RegisterBlocked | src/prefect/utilities/plugins.py:30-31 | an object on a proper prefix of the name makes the call raise the matching fault without changing anything |
| Registration.ApplyFailure | src/prefect/utilities/plugins.py:26-32 | a failed call changes nothing, and every later call of the same decorator fails too |
| Registration.ReapplyNests | src/prefect/utilities/plugins.py:27-30 | a second call of the same decorator starts at the node the first reached. It returns exactly when that node's path is passable, and the second object then lands under the name's parent path followed by the whole name |
| Registration.FnsMyFnKeys | src/prefect/utilities/plugins.py:28 | `"fns.my_fn"` splits into `["fns", "my_fn"]` |
| Registration.DocExample | src/prefect/utilities/plugins.py:44-48 | the documented example: `register_api("fns.my_fn")` on a fresh registry returns the function, creates one node (`fns`), and `REGISTRY.api.fns.my_fn` is the function |
| Registration.DocCall | src/prefect/utilities/plugins.py:44-48 | the documented call on the literal name: `register_api("fns.my_fn")` applied to `f` on a fresh registry returns `f`, and `REGISTRY.api.fns.my_fn` is `f` |
| Registration.ReuseFirstCall | src/prefect/utilities/plugins.py:27-31 | after the documented call the decorator's cursor is `REGISTRY.api.fns`, which holds `my_fn` and nothing that blocks a second call |
| Registration.DecoratorReuseExample | src/prefect/utilities/plugins.py:27-30 | applying that decorator again stores the second object at `REGISTRY.api.fns.fns.my_fn` |
| Registration.ReuseKeepsFirst | src/prefect/utilities/plugins.py:27-31 | the second call leaves the first object at `REGISTRY.api.fns.my_fn` |
| Registration.StoreKeepsSibling | src/prefect/utilities/plugins.py:29-31 | a key of the decorator's node other than the first key of the name keeps its entry, read through any path to that node |

## Left out

- `import_on_start_modules` (lines 13-18) imports the modules named in the configuration. It is interpreter I/O with nothing to model.
- `box.Box` internals are not modelled. This covers attribute-access sugar, the conversion of inserted dicts and lists into `Box` objects, and the exact exception classes. A node is a plain map, a read is `Lookup`, and the two exceptions are the `Fault` values.
- Registered objects are opaque. The model assumes they support neither `setdefault` nor item assignment, as functions and classes do not. Registering a dict or `Box` as a leaf and then registering below it would behave differently in Python.
- `setdefault` is called with a fresh `Box()` even when the key exists. That node is never reachable, so it is not allocated in the model.
- The process-wide singleton is not modelled as shared state, and neither is thread safety. The registry is a heap value passed in and returned.
- The `typing` and `importlib` imports are not modelled.
- Python builds `API`, `MODELS` and `PLUGINS` before `REGISTRY`. `Initial` numbers `REGISTRY` first so that the numbering puts parents first. No property depends on creation order.
- A node keeps no key order. `Box` is a dict and remembers insertion order, which shows when a namespace is listed; a `map` does not. Registration and lookup do not depend on that order.
