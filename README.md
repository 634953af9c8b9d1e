# Configurate core: list values, attributed nodes, versioned transformations

This project models three pieces of the Configurate configuration tree in Dafny and proves properties of the model.

- **`ListValue`** (`list_value.dfy`) is the list value container `ListConfigValue`. It is a class whose field `values` is the backing list of child nodes. Each child is a record: its key, its `attached` flag and its raw value. The class has `set`, `get`, the put, put-if-absent and remove operations, `child`, `copy`, `clear`, `isEmpty` and `equals`.
  - Removal runs the renumbering loop exactly as written: every later sibling's key becomes the removed index.
- **`Attributed`** (`attributed_node.dfy`) is the state that `AttributedConfigurationNodeImpl` adds to a node:
  - a tag name that is never empty;
  - an insertion-ordered attribute table, a `seq` of (name, value) pairs with distinct, non-empty names;
  - the node's `attached` flag.

  A call that can throw `IllegalArgumentException` returns a `Status` instead, and leaves the fields unchanged when it fails.
- **`Versioned`** (`versioned_transformation.dfy`) is `VersionedTransformation.apply`. A tree is an abstract state whose version field is explicit. A transformation maps a tree to the tree it leaves behind plus the error it threw, if any, so a step that fails can still have changed the tree. The registered migrations form a `seq` with strictly ascending keys.
  - `Apply` is the source's loop. It is proved equal to `ApplySpec`, a recursive specification.
  - Lemmas show which migrations run and in what order, how errors are aggregated, and when the version is written. They also show that a successful `apply` is idempotent.
- `Options` (`options.dfy`) holds `Option`, which stands for Java's nullable references.

Three behaviours of the code are easy to overlook; the model keeps them as written:

- **No version after a failure.** When any migration fails, `apply` rethrows before `versionNode.set` is reached, so no version is written (core/src/main/java/org/spongepowered/configurate/transformation/VersionedTransformation.java:62-66). This happens even when later migrations succeed and their changes stay in the tree. `Finish`, `ApplyOutcome`, `FailureKeepsVersion` and `PartialFailureExample` state this.
- **Low keys are skipped.** An entry is skipped when its key is at most the current version (line 47). An unversioned tree starts at -1, so a migration registered at -1 or below never runs on it.
- **Renumbering.** A removal gives every later sibling the same key, the removed index (core/src/main/java/org/spongepowered/configurate/ListConfigValue.java:161; see Findings).

## Model

| member | source | states |
|---|---|---|
| `ListValue.LikelyListKey` | core/src/main/java/org/spongepowered/configurate/ListConfigValue.java:55-57 | true exactly for an integer index or the unallocated marker, that is, for every key except a mapping name |
| `ListValue.BuiltKeysAreListKeys` | core/src/main/java/org/spongepowered/configurate/ListConfigValue.java:112-113 | every key `set` gives is a likely list key, and it is the child's position |
| `ListValue.UnallocatedAppendKey` | core/src/main/java/org/spongepowered/configurate/ListConfigValue.java:132-142 | a node appended under the unallocated marker gets a likely list key, the old length. The list grows by one and the call returns null. |
| `ListValue.Present` | core/src/main/java/org/spongepowered/configurate/ListConfigValue.java:107-111 | the non-null elements: no more of them than elements. Each one comes from the input, and every non-null input element is among them. Order and multiplicity are fixed by `PresentAppend` and `PresentOfOne`. |
| `ListValue.PresentAppend` | core/src/main/java/org/spongepowered/configurate/ListConfigValue.java:107-116 | the non-null elements of two lists joined are those of the first followed by those of the second |
| `ListValue.PresentOfOne` | core/src/main/java/org/spongepowered/configurate/ListConfigValue.java:108-115 | a null element is skipped, and a non-null one is kept as itself |
| `ListValue.Built` | core/src/main/java/org/spongepowered/configurate/ListConfigValue.java:99-117 | the children `set` builds: one per non-null element, in order. The i-th has key i, is attached and holds the i-th non-null element. |
| `ListValue.RemovedAt` | core/src/main/java/org/spongepowered/configurate/ListConfigValue.java:154-163 | removal shortens the list by one and keeps the earlier children. The raw values keep their relative order. Each later sibling gets the key `index`, as the loop is written. |
| `ListValue.RemovedAtRenumbered` | core/src/main/java/org/spongepowered/configurate/ListConfigValue.java:159-162 | the intended removal: the same list, except that each later sibling's key becomes its new position |
| `ListValue.DetachNodes` | core/src/main/java/org/spongepowered/configurate/ListConfigValue.java:227-234 | every given node, in order, comes out unattached with its value cleared; nothing else about it changes |
| `ListValue.ListConfigValue.constructor` | core/src/main/java/org/spongepowered/configurate/ListConfigValue.java:61-63 | a new container has no children |
| `ListValue.ListConfigValue.WithStart` | core/src/main/java/org/spongepowered/configurate/ListConfigValue.java:65-73 | a non-null start value becomes the single attached child with key 0; a null start value leaves the list empty |
| `ListValue.ListConfigValue.Get` | core/src/main/java/org/spongepowered/configurate/ListConfigValue.java:75-85 | exactly one raw value per child, in child order |
| `ListValue.ListConfigValue.Set` | core/src/main/java/org/spongepowered/configurate/ListConfigValue.java:98-119 | the list becomes `Built` of the elements, where a non-collection counts as a singleton. Every child held before comes back detached and cleared. |
| `ListValue.ListConfigValue.PutChild` | core/src/main/java/org/spongepowered/configurate/ListConfigValue.java:121-124 | the put effect with only-if-absent off |
| `ListValue.ListConfigValue.PutChildIfAbsent` | core/src/main/java/org/spongepowered/configurate/ListConfigValue.java:126-129 | the put effect with only-if-absent on |
| `ListValue.ListConfigValue.PutChildInternal` | core/src/main/java/org/spongepowered/configurate/ListConfigValue.java:131-146 | under the unallocated marker, a non-null node is appended with the old length as its key and a null changes nothing; both return null. An index goes to `PutChildAt`. |
| `ListValue.ListConfigValue.PutChildAt` | core/src/main/java/org/spongepowered/configurate/ListConfigValue.java:148-179 | a null value at an in-range index removes and returns that child (`RemovedAt`); out of range it changes nothing and returns null. A non-null value at an in-range index returns the occupant and either keeps the list (if absent) or replaces that slot. At index = size it is appended and null is returned. |
| `ListValue.ListConfigValue.ChildAt` | core/src/main/java/org/spongepowered/configurate/ListConfigValue.java:181-195 | null exactly when the key did not parse, is negative or is at least the size; otherwise the child at that index. Nothing is changed. |
| `ListValue.ListConfigValue.IterateChildren` | core/src/main/java/org/spongepowered/configurate/ListConfigValue.java:197-203 | a snapshot equal to the children at the time of the call |
| `ListValue.ListConfigValue.Copy` | core/src/main/java/org/spongepowered/configurate/ListConfigValue.java:205-220 | a fresh container of the same length whose i-th child is the copy of the i-th child |
| `ListValue.ListConfigValue.IsEmpty` | core/src/main/java/org/spongepowered/configurate/ListConfigValue.java:222-225 | true exactly when there are no children |
| `ListValue.ListConfigValue.Clear` | core/src/main/java/org/spongepowered/configurate/ListConfigValue.java:236-240 | the list becomes empty, and every child held before comes back detached and cleared |
| `ListValue.ListConfigValue.Equals` | core/src/main/java/org/spongepowered/configurate/ListConfigValue.java:242-252 | equal exactly when the child lists are equal |
| `ListValue.SetGetRoundTrip` | core/src/main/java/org/spongepowered/configurate/ListConfigValue.java:76-117 | setting what `get` returns after a `set` rebuilds the same children |
| `ListValue.PresentOfSomes` | core/src/main/java/org/spongepowered/configurate/ListConfigValue.java:107-111 | skipping nulls in a list with no nulls gives back its values |
| `ListValue.SingleValueSet` | core/src/main/java/org/spongepowered/configurate/ListConfigValue.java:100-102 | `set` of a non-collection: null gives the empty list; anything else gives the one attached child at index 0, as the start-value constructor does |
| `ListValue.RemovalEffect` | core/src/main/java/org/spongepowered/configurate/ListConfigValue.java:154-163 | removing returns the removed child and shortens the list by one. The other raw values keep their order, and every later key becomes `index`. |
| `ListValue.RemovalBreaksDenseKeys` | core/src/main/java/org/spongepowered/configurate/ListConfigValue.java:159-162 | on a list whose keys are its positions, removing a child that has two or more later siblings gives two siblings the same key |
| `ListValue.RemovalKeepsDenseKeys` | core/src/main/java/org/spongepowered/configurate/ListConfigValue.java:159-162 | with the intended renumbering, keys stay equal to positions |
| `ListValue.PutAtOccupiedIndex` | core/src/main/java/org/spongepowered/configurate/ListConfigValue.java:166-171 | at an occupied index, put-if-absent returns the occupant and changes nothing. A plain put returns the occupant, keeps the length and changes only that slot. |
| `Attributed.Lookup` | core/src/main/java/org/spongepowered/configurate/AttributedConfigurationNodeImpl.java:113-115 | a value exactly when some entry has the name, and that value is stored under the name |
| `Attributed.Put` | core/src/main/java/org/spongepowered/configurate/AttributedConfigurationNodeImpl.java:73 | afterwards the name maps to the value and every other name maps as before. An existing name keeps its place; a new name is appended. |
| `Attributed.Remove` | core/src/main/java/org/spongepowered/configurate/AttributedConfigurationNodeImpl.java:80 | afterwards the name has no value, every other name maps as before, and no entry is new. The order of the rest is stated by `RemoveAbsent` and `RemoveInOrder`. |
| `Attributed.RemoveAbsent` | core/src/main/java/org/spongepowered/configurate/AttributedConfigurationNodeImpl.java:80 | removing a name the table does not hold leaves the table exactly as it was |
| `Attributed.RemoveInOrder` | core/src/main/java/org/spongepowered/configurate/AttributedConfigurationNodeImpl.java:80 | when names are distinct, removing a present name splices out exactly its entry, and the others keep their insertion order |
| `Attributed.PutAll` | core/src/main/java/org/spongepowered/configurate/AttributedConfigurationNodeImpl.java:145-147 | for a map, a name it mentions takes its value, and every other name keeps its old value |
| `Attributed.AsMap` | core/src/main/java/org/spongepowered/configurate/AttributedConfigurationNodeImpl.java:186 | the map view holds a name exactly when the table does, with the same value |
| `Attributed.AttributedNode.Init` | core/src/main/java/org/spongepowered/configurate/AttributedConfigurationNodeImpl.java:37-47 | a node built with a checked, non-empty tag name and no attributes is valid |
| `Attributed.AttributedNode.TagNameCheck` | core/src/main/java/org/spongepowered/configurate/AttributedConfigurationNodeImpl.java:57-60 | a tag name passes exactly when it is non-empty; otherwise the result is the illegal-argument error with its message |
| `Attributed.AttributedNode.New` | core/src/main/java/org/spongepowered/configurate/AttributedConfigurationNodeImpl.java:37-41 | the constructor throws, and gives no node, exactly for an empty tag name. Otherwise the valid new node has that tag and no attributes. |
| `Attributed.AttributedNode.NewCopy` | core/src/main/java/org/spongepowered/configurate/AttributedConfigurationNodeImpl.java:43-47 | the copy constructor makes the same tag-name check; on success the node is valid, with that tag, no attributes and the attachment given for the superclass part |
| `Attributed.AttributedNode.TagName` | core/src/main/java/org/spongepowered/configurate/AttributedConfigurationNodeImpl.java:49-53 | the tag name is never empty |
| `Attributed.AttributedNode.SetTagName` | core/src/main/java/org/spongepowered/configurate/AttributedConfigurationNodeImpl.java:55-64 | an empty name throws and keeps the old tag name; otherwise the name is stored. Nothing else changes. |
| `Attributed.AttributedNode.AddAttribute` | core/src/main/java/org/spongepowered/configurate/AttributedConfigurationNodeImpl.java:66-75 | an empty name throws with no change; otherwise the table is `Put` of the pair and the node is attached |
| `Attributed.AttributedNode.RemoveAttribute` | core/src/main/java/org/spongepowered/configurate/AttributedConfigurationNodeImpl.java:77-82 | the table becomes `Remove` of the name; tag and attachment are unchanged |
| `Attributed.AttributedNode.SetAttributes` | core/src/main/java/org/spongepowered/configurate/AttributedConfigurationNodeImpl.java:84-98 | fails with no change exactly when some name is empty. Otherwise the table equals the given map, and the node becomes attached if the map is non-empty. |
| `Attributed.AttributedNode.Attributes` | core/src/main/java/org/spongepowered/configurate/AttributedConfigurationNodeImpl.java:100-104 | a copy of the table that answers every lookup as `attribute` does |
| `Attributed.AttributedNode.HasAttributes` | core/src/main/java/org/spongepowered/configurate/AttributedConfigurationNodeImpl.java:106-109 | true exactly when some name has a value |
| `Attributed.AttributedNode.Attribute` | core/src/main/java/org/spongepowered/configurate/AttributedConfigurationNodeImpl.java:111-115 | a value exactly when the table has the name. That value is stored under the name, and the name is non-empty. |
| `Attributed.AttributedNode.Empty` | core/src/main/java/org/spongepowered/configurate/AttributedConfigurationNodeImpl.java:117-120 | empty exactly when the superclass part is empty and there are no attributes |
| `Attributed.AttributedNode.MergeFrom` | core/src/main/java/org/spongepowered/configurate/AttributedConfigurationNodeImpl.java:139-150 | the other node's tag name is taken and its attributes are put in order, keeping unmentioned ones. The node is attached if any attribute was merged. |
| `Attributed.AttributedNode.Copy` | core/src/main/java/org/spongepowered/configurate/AttributedConfigurationNodeImpl.java:152-159 | a fresh valid node with the same tag name and the same attribute table, attached as the superclass copy makes it |
| `Attributed.AttributedNode.Equals` | core/src/main/java/org/spongepowered/configurate/AttributedConfigurationNodeImpl.java:171-187 | equal exactly when it is the same object, or when the superclass parts are equal, the tag names are equal and the attribute maps are equal in any order |
| `Attributed.PutKeepsMap` | core/src/main/java/org/spongepowered/configurate/AttributedConfigurationNodeImpl.java:73 | a put of a non-empty name keeps the names distinct and non-empty |
| `Attributed.RemoveKeepsMap` | core/src/main/java/org/spongepowered/configurate/AttributedConfigurationNodeImpl.java:80 | a removal keeps the names distinct and non-empty |
| `Attributed.PutAllIntoEmpty` | core/src/main/java/org/spongepowered/configurate/AttributedConfigurationNodeImpl.java:92-96 | putting all of a map into the cleared table gives exactly that map, in its order |
| `Attributed.AddThenRemoveOther` | core/src/main/java/org/spongepowered/configurate/AttributedConfigurationNodeImpl.java:68-82 | removing another name keeps an added attribute, and the removed name reads as null |
| `Attributed.EqualsIgnoresOrder` | core/src/main/java/org/spongepowered/configurate/AttributedConfigurationNodeImpl.java:186 | tables that agree on every lookup are equal as maps, whatever their order |
| `Versioned.RunAll` | core/src/main/java/org/spongepowered/configurate/transformation/VersionedTransformation.java:59 | after running entries unconditionally, the current version is the last entry's key, failed or not, or the start version if there was none |
| `Versioned.Pending` | core/src/main/java/org/spongepowered/configurate/transformation/VersionedTransformation.java:46-49 | the entries that are not skipped: each is a registered entry, key and transformation together, with its key above the start, and every registered key above the start is among them |
| `Versioned.PendingAppend` | core/src/main/java/org/spongepowered/configurate/transformation/VersionedTransformation.java:46-49 | the pending entries of two entry lists joined are those of the first followed by those of the second, so registration order is kept |
| `Versioned.PendingOfOne` | core/src/main/java/org/spongepowered/configurate/transformation/VersionedTransformation.java:47-49 | one entry is pending exactly when its key is above the start |
| `Versioned.VersionedTransformation.constructor` | core/src/main/java/org/spongepowered/configurate/transformation/VersionedTransformation.java:36-39 | stores the version path and the ascending migrations |
| `Versioned.VersionedTransformation.Apply` | core/src/main/java/org/spongepowered/configurate/transformation/VersionedTransformation.java:42-67 | the loop computes exactly `ApplySpec` of the tree |
| `Versioned.VersionedTransformation.VersionKey` | core/src/main/java/org/spongepowered/configurate/transformation/VersionedTransformation.java:69-72 | the configured version path, read without side effects |
| `Versioned.VersionedTransformation.LatestVersion` | core/src/main/java/org/spongepowered/configurate/transformation/VersionedTransformation.java:74-77 | the largest registered version, present exactly when some migration is registered (`lastKey` throws otherwise) |
| `Versioned.GateRunsPending` | core/src/main/java/org/spongepowered/configurate/transformation/VersionedTransformation.java:46-60 | on ascending keys the loop equals running every entry above the start version in order, with no skip and no stop at a failure |
| `Versioned.NothingPendingAboveAllKeys` | core/src/main/java/org/spongepowered/configurate/transformation/VersionedTransformation.java:47-49 | nothing is pending from a version at least every key |
| `Versioned.PendingAscending` | core/src/main/java/org/spongepowered/configurate/transformation/VersionedTransformation.java:46-49 | the applied migrations run in strictly ascending version order |
| `Versioned.ApplyOutcome` | core/src/main/java/org/spongepowered/configurate/transformation/VersionedTransformation.java:50-66 | fails exactly when some pending step threw. The first error is primary, with the later ones suppressed in order, and the tree is as the steps left it with its version not written. Otherwise the version is set to the last pending key, or set to the start version (-1 for an unversioned tree, which is then written). |
| `Versioned.ReachedIsAtLeastEveryKey` | core/src/main/java/org/spongepowered/configurate/transformation/VersionedTransformation.java:46-60 | the version reached is at least every registered version |
| `Versioned.LastPendingIsLastEntry` | core/src/main/java/org/spongepowered/configurate/transformation/VersionedTransformation.java:46-60 | when anything runs, the last migration run is the last one registered |
| `Versioned.ApplyIdempotent` | core/src/main/java/org/spongepowered/configurate/transformation/VersionedTransformation.java:45-66 | after a successful `apply`, no migration is pending from the version written, so a second `apply` runs nothing and gives the same tree |
| `Versioned.FailureKeepsVersion` | core/src/main/java/org/spongepowered/configurate/transformation/VersionedTransformation.java:62-66 | when no migration touches the version field, a failed `apply` leaves it as it was |
| `Versioned.RunKeepsVersion` | core/src/main/java/org/spongepowered/configurate/transformation/VersionedTransformation.java:46-60 | the loop keeps the version field when no migration touches it |
| `Versioned.PartialFailureExample` | core/src/main/java/org/spongepowered/configurate/transformation/VersionedTransformation.java:50-66 | example: version 1 fails and version 2 succeeds. The call fails with the version-1 error, version 2's change is kept, and no version is written. |

## Left out

- Concurrency: the `AtomicReference` compare-and-set retry loops and the `synchronized` blocks of `ListConfigValue`. Each operation is one sequential step on the `seq`, which is what one successful pass of each loop does.
- Node identity: children are value records, not shared objects. So `set` and `clear` return the detached children instead of updating nodes that others may still hold. `value.key = ...` on an appended node is written into the stored record.
- A child's own `clear` is modelled as a null value, with the key kept.
- A child's `copy` is an input function.
- Child equality is record equality, standing in for the node's own `equals`.
- `ListValue.ListConfigValue.Equals` and `Attributed.AttributedNode.Equals` take an argument of their own class. So the `instanceof` check that returns false for any other object is not modelled (ListConfigValue.java:247-249, AttributedConfigurationNodeImpl.java:177-179).
- `child.raw(o)` stores `o` as the child's value; converting a nested collection into nested nodes is not part of this model.
- `Scalars.INTEGER.tryDeserialize` (string-to-int coercion) is outside the model. `ChildAt` takes its result as an `Option<int>`.
- The cast of a non-integer key to `int`, and `List.add` at an index other than `size`, throw in Java. The put methods require them not to happen (`PutAllowed`).
- `holder.createNode`, `unwrapped`, `hashCode` and `toString` are not modelled.
- `requireNonNull` is a null check, and Dafny strings are never null.
- `Attributed.AttributedNode.SetAttributes` requires distinct names, which any Java `Map` has.
- `attachIfNecessary` only sets this node's `attached` flag. Propagating attachment to ancestors is superclass code that is not part of this model.
- `super.empty()` and `super.equals(o)` are boolean inputs. `super.mergeFrom`, `super.from`, comments, `createNode` and `from` are not part of this model.
- `Attributed.AttributedNode.NewCopy`: the superclass copy constructor is not part of this model, so the copy's attachment is a parameter of `NewCopy` and `Copy`.
- `node(versionPath)` and `getInt` are abstracted to an explicit version field, so `None` covers both an absent field and a non-integer one. The version path is kept only for `versionKey`. Migrations are abstract functions, and their errors are an abstract type.
- `Versioned.VersionedTransformation.Apply` returns the resulting tree instead of changing it in place.
- `Versioned.VersionedTransformation.Apply`: the error type `E` stands for `ConfigurateException` only, the one exception the loop catches (line 52). Unchecked exceptions are not modelled. Such an exception ends `apply` at once: later migrations do not run, nothing is suppressed and no version is written.
- `Versioned.VersionedTransformation.Apply`: `thrown.addSuppressed(ex)` (line 56) throws `IllegalArgumentException` when a later migration throws the same exception object as the first error (`ex == thrown`). That exception escapes `apply`: later migrations do not run and no version is written. This is not modelled; every error is taken as a distinct value.
- `Versioned.VersionedTransformation.constructor` requires strictly ascending keys. The Java constructor takes any `NavigableMap`, which iterates, and answers `lastKey`, in its comparator's order. The model takes the map in natural ascending `Integer` order. The builder that creates the map is not part of this model. `Apply == ApplySpec` is proved for any order. The lemmas about which migrations run rely on ascending keys.
- `VersionUnknown` is -1, the conventional value. The constant is declared in a file that is not part of this model.
- `format/jackson/src/main/java/org/spongepowered/configurate/jackson/JacksonVisitor.java` is not modelled: it writes to a JSON generator that is not part of this model.

## Findings

| source | as written | input that shows it | evidently intended | confidence | as-written member | corrected member |
|---|---|---|---|---|---|---|
| core/src/main/java/org/spongepowered/configurate/ListConfigValue.java:161 | `values.get(i).key = index` gives every later sibling the removed index as its key | three children with keys 0, 1, 2; remove index 0: the remaining two both get key 0 | `values.get(i).key = i`, each later sibling keyed by its new position, as the comment "update indexes for subsequent elements" says | not executed; high | `ListValue.RemovalBreaksDenseKeys` | `ListValue.RemovalKeepsDenseKeys` |

The class `ListConfigValue` keeps the as-written renumbering (`RemovedAt`), so that its contracts describe the program. The corrected removal `RemovedAtRenumbered` is proved to keep every key equal to its position.
