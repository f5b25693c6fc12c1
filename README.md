# Observer pattern: subject registry and notification

This project models the subject/observer mechanism of `main.py` in Dafny.

- A **subject** keeps a registry `_observers` of observers, in registration order. Duplicates are allowed.
- The subject's public attributes are every attribute whose name does not start with `_`.
- `notify()` walks the registry in order. For each entry it computes `_get_vars()`, the list of public (name, value) pairs in insertion order, and hands that list to the observer's `update`.
- `update` sets every pair on the observer, in order, with `setattr`. Then it runs the observer's reaction hook `on_change` once.
- The concrete subject `CpuSensor` sets its `temp` attribute and then notifies.

Modules:

- `Attributes` (`attributes.dfy`) is an object's attribute dictionary.
  - It is an ordered list of (name, value) pairs, one per name, in insertion order.
  - `SetAttr` rebinds an existing name in place and appends a new one.
  - `ApplyAll` is the loop of `update`.
  - `Public` is the filter of `_get_vars`.
- `Registry` (`registry.dfy`) is the registry as a value.
  - `list.remove` becomes `RemoveFirst`, with its position given by `IndexOf`.
  - `Count` gives how often an observer is registered.
  - `Replay`/`Tally` cover any series of `register`/`remove` calls.
- `Observers` (`observers.dfy`) holds the `Observer` class.
  - Its field `attrs` is the object's `__dict__`. `Update` changes it in place.
  - `on_change` appends what it sees to a ghost log, `reactions`.
- `Subjects` (`subjects.dfy`) holds the `Subject` and `CpuSensor` classes.
  - The subject's `__dict__` is the registry entry `_observers`, followed by its other attributes (`fields`).
  - `GetVars` is `_get_vars` over that dictionary.
  - A ghost log, `deliveries`, records every (observer, snapshot) pair that `notify` hands out.

The source calls `_get_vars()` once per registry entry, inside the loop of `notify`. The model does the same. It then proves that every call in one `notify` yields the same snapshot, because updating an observer does not touch the subject. Computing the snapshot once before the loop would give the same deliveries.

The source raises Python's `ValueError` when `remove` does not find the observer. The model returns `Outcome.ValueError` and leaves the registry unchanged.

## Model

| member | source | states |
|---|---|---|
| Attributes.Lookup | main.py:8-9 | A name is absent exactly when the dictionary does not bind it; a value found is one the dictionary binds to it |
| Attributes.SetAttr | main.py:9 | `setattr` keeps the names in their order, adding a new name at the end and leaving an existing one in place |
| Attributes.SetAttrLookup | main.py:9 | After `setattr(obj, name, v)`, `name` reads back as `v` and every other name reads as before |
| Attributes.SetAttrUnique | main.py:9 | `setattr` keeps each name bound at most once |
| Attributes.ApplyAll | main.py:8-9 | The loop of `update`: the pairs are set one after another, left to right. It has no ensures of its own; its meaning is stated by ApplyAllLastWins, ApplyAllUntouched and ApplyAllUnique, and `Observer.Update` is proved equal to it |
| Attributes.ApplyAllLastWins | main.py:8-9 | After the loop over the pairs, a name holds the value of the last pair that carries it |
| Attributes.ApplyAllUntouched | main.py:8-9 | A name that no pair carries keeps its old binding |
| Attributes.ApplyAllUnique | main.py:8-9 | Applying any pairs keeps each name bound at most once |
| Attributes.SetAttrSame | main.py:9 | Rebinding a name to the value it already has leaves the dictionary unchanged |
| Attributes.ApplyAllInForce | main.py:8-9 | Pairs that are all already in force leave the dictionary unchanged |
| Attributes.ReapplyIsNoop | main.py:8-9 | Applying the same snapshot with distinct names twice has the effect of applying it once |
| Attributes.ApplyAllLookup | main.py:8-9 | Every binding of a snapshot with distinct names is in force after it is applied |
| Attributes.IsPrivate | main.py:32 | `key.startswith("_")`: a name is private exactly when it is non-empty and its first character is `_`. It is a predicate with no ensures; PublicMembers and PublicNames state what it filters |
| Attributes.Public | main.py:32 | The comprehension of `_get_vars` over a dictionary. Its own ensures states only that it is never longer than the dictionary; which pairs it keeps, and in what order, is stated by PublicMembers, PublicInOrder and PublicNames |
| Attributes.PublicMembers | main.py:31-32 | The filtered list holds exactly the pairs whose name does not start with `_` |
| Attributes.PublicInOrder | main.py:31-32 | The filtered list keeps the dictionary's insertion order |
| Attributes.PublicAppend | main.py:31-32 | Filtering two concatenated dictionaries filters each part |
| Attributes.PublicLookup | main.py:31-32 | A private name is absent from the filtered list; a public one reads as in the dictionary |
| Attributes.PublicNames | main.py:31-32 | The names in the filtered list are exactly the dictionary's names without a leading `_` |
| Attributes.PublicUnique | main.py:31-32 | Filtering a dictionary with distinct names yields distinct names |
| Registry.IndexOf | main.py:28 | The position of the first entry equal to the observer: it holds the observer and no earlier entry does |
| Registry.RemoveFirst | main.py:28 | `list.remove`: deletes the first entry equal to `x`. It has no ensures of its own; its meaning is stated by RemoveFirstCutsFirst, RemoveFirstAbsent and RemoveFirstMultiset |
| Registry.RemoveFirstCutsFirst | main.py:28 | `list.remove` cuts out exactly the first occurrence and keeps the rest in order, one entry shorter |
| Registry.RemoveFirstAbsent | main.py:28 | Without an occurrence, nothing is cut |
| Registry.RemoveFirstMultiset | main.py:28 | Removal takes one copy away; the other duplicates and all other entries keep their counts |
| Registry.RemoveFirstAfterAppend | main.py:24-28 | `remove` right after `register(x)`: when `x` was not registered before, the registry is restored; otherwise the earliest registration is removed and the new one stays at the end |
| Registry.ReplayTally | main.py:24-28 | After any series of `register`/`remove` calls, the registry as a bag is the observers added less one copy per successful removal |
| Registry.Count | main.py:25 | An observer's count is zero exactly when it is not registered, and never exceeds the registry's length |
| Registry.CountMultiset | main.py:25 | The count agrees with the registry read as a bag |
| Observers.Observer.constructor | main.py:5 | A new observer has no attributes and has not reacted yet |
| Observers.Observer.OnChange | main.py:13-15 | The hook runs once, against the attributes as they are at that moment |
| Observers.Observer.Update | main.py:7-11 | Every pair is set in order, each name ends with its last value, other names keep theirs, and then `on_change` runs exactly once on the fully updated attributes |
| Subjects.RegistryFirst | main.py:22 | The subject's dictionary, with `_observers` first, binds each name once exactly when its other attributes do and none of them is `_observers` |
| Subjects.Subject.constructor | main.py:20-22 | A new subject has an empty registry and no other attributes |
| Subjects.Subject.SetField | main.py:46 | After `self.name = v`, a public name reads back from the snapshot as `v`, and a private one is not in it |
| Subjects.Subject.Register | main.py:24-25 | `register` appends, even an observer that is already registered, whose count then grows by one |
| Subjects.Subject.Remove | main.py:27-28 | `remove` fails with `ValueError` and changes nothing exactly when the observer is absent; otherwise it deletes the first occurrence, keeps the order, and lowers that observer's count by one |
| Subjects.Subject.GetVars | main.py:30-32 | `_get_vars()`: the public pairs of the subject's dictionary, `_observers` first. Its own ensures states only that it is never longer than the subject's other attributes; its content is stated by SnapshotIsPublic and SnapshotUnique |
| Subjects.SnapshotIsPublic | main.py:30-32 | `_get_vars()` holds exactly the subject's public attributes, in insertion order, and never `_observers` |
| Subjects.SnapshotUnique | main.py:30-32 | `_get_vars()` of a well-formed subject names each attribute once |
| Subjects.Subject.Notify | main.py:34-36 | One delivery per registry entry, in order, each carrying the current public state. An observer registered k times ends with the attributes of one update and has reacted k times |
| Subjects.Subject.DeliverNext | main.py:35-36 | One pass of the loop: `_get_vars()` still yields the snapshot, entry `i` is updated with it, and the delivery is logged |
| Subjects.UpdateEntry | main.py:36 | Updating entry `i` advances that observer by one delivery and leaves every other observer as it was |
| Subjects.NotifyOne | main.py:36 | A further delivery of the same snapshot leaves the attributes as the first delivery set them and adds one reaction |
| Subjects.DeliveriesCount | main.py:34-36 | An observer registered k times receives exactly k deliveries in one `notify` |
| Subjects.CpuSensor.constructor | main.py:42-43 | A new sensor starts as a new subject: empty registry, no attributes |
| Subjects.CpuSensor.ChangeMeasurements | main.py:45-47 | `temp` is set before notifying, so every snapshot handed out carries the new `temp`. Afterwards every registered observer holds it, with one update and one reaction per registration |

## Left out

- The driver at the end of `main.py`: the loop, the random readings and `sleep`. It uses the core but is not part of it.
- The bodies of the concrete `on_change` methods of `CpuController` and `TempDisplay`, which print. The model records what each run of `on_change` saw, in the ghost log `reactions`; the printed text and the 90-degree threshold are not modelled.
- The `ABC`/`abstractmethod` machinery, and `CpuSensor` inheriting from `Subject`. Dafny classes do not inherit, so a `CpuSensor` holds its `Subject` as the field `subject`. `ChangeMeasurements` calls `SetField` and `Notify` on it; `register`, `remove` and `notify` are called on `subject` directly rather than on the sensor.
- Registration of classes rather than instances. The source registers the observer classes themselves and passes the observer explicitly (`observer.update(observer, ...)`, `self.on_change(self)`). The model registers observer objects; identity is reference equality.
- Reflection over `__dict__`. Each dictionary is an explicit ordered list of pairs, and the subject's dictionary is `_observers` followed by `fields`.
- Attribute values are limited to integers, strings and the registry itself.
- Reentrancy: an `on_change` that changes the subject or its registry during `notify`. Observers in the model cannot reach the subject.
- Failure propagation from an observer, and the exception itself. `remove` reports `ValueError` as a result instead of raising it.
- Subjects.Subject.SetField: requires the name not to be `_observers`. Rebinding the registry by plain assignment is not modelled.
- Subjects.Subject.Notify: requires every registered observer to bind each name once, and the subject's dictionary to be well-formed. Python dictionaries always are; the model states it as an invariant.
