# gdasc dictionary, modelled in Dafny

`gdasc_dictionary.h` generates, per key/value type pair, a linear-scan
associative array: a contiguous buffer of `(key, value)` entries with a
`length` (live entries) and a `capacity` (allocated slots), searched front to
back with a comparison function `cmp`, where two keys are the same when
`cmp(a, b) == 0`. Its operations are `set` (overwrite or append, growing the
buffer), `get`, `pop` and `index` (lookup by key), `popindex` (removal by a
possibly negative position), `clear`, `copy`, `update` (merge another
dictionary in) and the constructor, which starts from the per-type class
state `length 0, capacity 1`.

This project models that engine as immutable values:

- `Dictionary.Dict` holds `entries: seq<Entry<K, V>>` (slots `[0, length)` of
  the buffer) and `capacity: nat`. Every mutating operation returns the new
  dictionary; an observer such as `Get` returns no state, so it cannot change
  one.
- Keys are compared with Dafny's `==` on `K(==)`: `cmp` is taken to be an
  equality test.
- The three fatal `exit` paths become `Errors.Result` values carrying
  `EmptyContainer`, `KeyNotFound` or `IndexOutOfRange`; `Errors.ExitCode`
  keeps the original statuses 5000, 5001 and 5003.
- The capacity policy lives in `Growth`. A full buffer grows to
  `((capacity + 1) * 6) / 5`, and a removal shrinks it to `length + 1` when
  `5 * capacity > 6 * length`. This is the C code's `1.2` factor in exact
  arithmetic. The C code multiplies by the double `1.2` and truncates; the
  two agree for every capacity below about 2^52, because the double product
  rounds back onto the integer whenever `6 * x / 5` is one.
- `Entries.ToMap` is the abstraction: the map a sequence of entries stands
  for, each key mapping to the value of its first entry, because every scan
  stops at the first match. `Get`, `Set`, `Pop`, `PopIndex` and `Update` are
  all related to plain map operations through it.
- `Properties.Run` replays any sequence of state-changing operations from
  `New()` and proves the representation invariant `Valid` of the result.
  `Valid` means keys pairwise distinct and `length < capacity`. The strict
  `<` is what lets `set` and `update` write the slot at `end` before they
  check for growth. A failed `pop`/`popindex` leaves the state unchanged
  there, where the C code would have ended the process.
- Removal closes the gap with `memmove`, so the remaining entries keep
  their order; `Pop` and `PopIndex` state the resulting sequence exactly.

## Model

| member | source | states |
|---|---|---|
| `Errors.ExitCode` | gdasc_dictionary.h:4-6 | each failure maps to one of the three statuses the header defines: 5000, 5001 or 5003 |
| `Errors.ExitCodesIdentifyErrors` | gdasc_dictionary.h:4-6 | the three failures have distinct exit statuses, 5000 to 5003 |
| `Entries.IndexOf` | gdasc_dictionary.h:101-110 | the result is -1 exactly when no entry has the key, otherwise the position of an entry with that key with no earlier entry having it |
| `Entries.ToMap` | gdasc_dictionary.h:70-74 | the denoted map has exactly the stored keys, each mapped to the value of the first entry the scan finds |
| `Entries.RemoveAt` | gdasc_dictionary.h:87-88 | removal shifts every later entry down one slot and keeps the earlier ones, one entry shorter |
| `Entries.RemovePreservesLookup` | gdasc_dictionary.h:84-94 | with distinct keys, removing the entry at a position deletes exactly its key from the denoted map |
| `Growth.Grown` | gdasc_dictionary.h:56-58 | growth strictly increases the capacity |
| `Growth.TooLarge` | gdasc_dictionary.h:89 | the shrink test `capacity > 1.2 × length` holds exactly when the capacity exceeds the length plus a fifth of it rounded down; a buffer that passes it has a spare slot |
| `Growth.AfterAppend` | gdasc_dictionary.h:56-61 | after an append the capacity exceeds the length, never decreases, and changes exactly when the length reached it |
| `Growth.AfterRemove` | gdasc_dictionary.h:89-92 | after a removal the capacity exceeds the length and does not grow; it is either unchanged or length + 1; it drops below its old value only when that exceeded 1.2 times the length, and whenever it exceeded that it becomes length + 1 |
| `Growth.GrowthTable` | gdasc_dictionary.h:56-58 | the capacities a growing dictionary passes through: 1, 2, 3, 4, 6, 8, 10, 13, 16, 20 |
| `Dictionary.New` | gdasc_dictionary.h:188-200 | a new dictionary is valid, denotes the empty map, and has length 0 and capacity 1 |
| `Dictionary.Set` | gdasc_dictionary.h:46-63 | with room for one more slot: a present key gets the new value in place and nothing else changes; a new key is appended at the end, growing the capacity by the policy; the key set gains `k`; distinct keys and `length < capacity` are kept |
| `Dictionary.Get` | gdasc_dictionary.h:65-77 | fails with EmptyContainer exactly on an empty dictionary and with KeyNotFound exactly when a non-empty one lacks the key; otherwise returns the key's value in the denoted map |
| `Dictionary.RemoveEntry` | gdasc_dictionary.h:87-93 | compaction then the shrink policy; keeps `length < capacity` and distinct keys, removes exactly that entry's key |
| `Dictionary.Pop` | gdasc_dictionary.h:79-99 | fails exactly when and as `Get` fails; on success returns `Get`'s value, removes that entry keeping the others in order, applies the shrink policy to the capacity, and on a valid dictionary deletes the key from the denoted map and leaves it valid |
| `Dictionary.Index` | gdasc_dictionary.h:101-110 | the loop with its early break returns the first matching position, or -1 exactly when `Get` would fail; it never fails itself |
| `Dictionary.Normalize` | gdasc_dictionary.h:117-118 | a non-negative position is kept and a negative one lands below the length; the normalised position is in `[0, length)` exactly when the given one is in `[-length, length)` |
| `Dictionary.PopIndex` | gdasc_dictionary.h:112-131 | fails with EmptyContainer exactly on an empty dictionary and with IndexOutOfRange exactly when the index is outside `[-length, length)`; succeeds exactly when the index is in `[-length, length)`, and then returns the entry at the normalised position and removes it, keeping the others in order, applying the shrink policy to the capacity, and keeping the dictionary valid |
| `Dictionary.Clear` | gdasc_dictionary.h:133-139 | clearing gives exactly the state of a freshly constructed dictionary |
| `Dictionary.Copy` | gdasc_dictionary.h:141-149 | the copy has the same capacity and the same live entries, copied slot by slot |
| `Dictionary.Merge` | gdasc_dictionary.h:153-170 | running set for each entry of the other side keeps room for an append and distinct keys; existing entries keep their keys and positions |
| `Dictionary.MergeKeys` | gdasc_dictionary.h:153-170 | after the merge loop the key set is the union of both sides' key sets |
| `Dictionary.Update` | gdasc_dictionary.h:151-172 | update keeps `length < capacity` and distinct keys; its key set is the union of both key sets |
| `Properties.SetRefines` | gdasc_dictionary.h:46-63 | `set` is map assignment `m[k := v]` on the denoted map |
| `Properties.GetAfterSet` | gdasc_dictionary.h:46-77 | `get(k)` right after `set(k, v)` returns `v` |
| `Properties.SetLength` | gdasc_dictionary.h:46-62 | `set` keeps the length when `get` would find the key and adds exactly one entry otherwise |
| `Properties.PopAfterSet` | gdasc_dictionary.h:79-99 | `pop(k)` after `set(k, v)` succeeds with `v`, shortens by one, leaves `index(k) == -1`; for a new key it restores the original entries |
| `Properties.PopIndexFromEnd` | gdasc_dictionary.h:117-121 | a negative position `i` in range behaves as `length + i`, so `popindex(-1)` is `popindex(length - 1)` |
| `Properties.ClearIdempotent` | gdasc_dictionary.h:133-139 | clearing twice equals clearing once, and the result is empty with room to append |
| `Properties.MergeRefines` | gdasc_dictionary.h:153-170 | on the denoted maps the merge loop is map union with the other side winning |
| `Properties.MergeLayout` | gdasc_dictionary.h:153-170 | the merged buffer is the old entries in place, with shared keys taking the other side's values, followed by the other side's new-key entries in their order |
| `Properties.UpdateSemantics` | gdasc_dictionary.h:151-172 | for a valid `self` and an `other` with distinct keys: the result is valid, every key of `other` maps to `other`'s value, keys only in `self` keep value and position, new keys are appended in `other`'s order, and the length is the size of the union of the key sets |
| `Properties.Step` | gdasc_dictionary.h:46-172 | every state-changing operation maps a valid dictionary to a valid one |
| `Properties.Run` | gdasc_dictionary.h:53-61 | every state reachable from the constructor keeps distinct keys and `length < capacity`, hence capacity at least 1 |
| `Scenarios.OverwriteScenario` | gdasc_dictionary.h:46-77 | `set(1,"a")`, `set(1,"b")` gives `get(1) == "b"`, length 1, capacity 2 |
| `Scenarios.PopScenario` | gdasc_dictionary.h:79-110 | `set(1,"a")`, `set(2,"b")` grows to capacity 3; `pop(1)` returns `"a"`, leaves length 1, `index(1) == -1` and `index(2) == 0` |
| `Scenarios.PopIndexScenario` | gdasc_dictionary.h:112-131 | on `[(1,"a"),(2,"b")]` with capacity 3, `popindex(-1)` returns `(2,"b")` and leaves `[(1,"a")]` with capacity shrunk to 2 |
| `Scenarios.EmptyScenario` | gdasc_dictionary.h:65-110 | `get` on a fresh dictionary fails with EmptyContainer while `index` returns -1 |
| `Scenarios.UpdateScenario` | gdasc_dictionary.h:151-172 | merging `{2:"x", 3:"y"}` into `{1:"a", 2:"b"}` gives `[(1,"a"),(2,"x"),(3,"y")]` with the capacity grown from 3 to 4 |

## Left out

- `protect`, `release`, `destroy` and the `pthread_mutex_t` field (gdasc_dictionary.h:174-186). They provide advisory locking and teardown, and no data operation uses them. The model is sequential.
- Raw memory: `malloc`/`realloc`/`free`/`memmove`/`memcpy`, the `begin`/`end` pointers and `entry_size`. The buffer is a sequence and capacity is a number. Allocation failure is not modelled.
- The buffer-start pointer returned by `set`, `clear` and `update`. It carries no information beyond the new state.
- `fprintf(stderr, …)` and `exit(…)`: the model returns error values instead.
- The macro code generation and the function-pointer class table (gdasc_dictionary.h:14-42, 197-216). Dafny type parameters take their place. `New` models the class state the constructor copies.
- The `cmp` function pointer: keys are compared with `==`. A `cmp` that is not an equality test is not modelled, so `update` calling `cmp` with its arguments swapped (line 155) makes no difference here.
- `update(self, self)` aliasing and deep copies of pointer-typed keys or values. These are C memory questions with no stated contract. In the value model a copy can never be affected by later changes to the original.
- Machine integer widths: `index` and the `popindex` position are C `int` and `length`/`capacity` are `size_t`. The model uses unbounded integers. The `size_t` arithmetic in `length + index` gives the same outcome as the mathematical one for every in-range input.
- Floating-point evaluation of `DICT_GROW_RATIO`. It is modelled exactly as 6/5, which agrees with the double computation for capacities below about 2^52.
- Properties.UpdateSemantics: assumes `other` has distinct keys, as every dictionary built by these operations does. For a buffer with a repeated key, the merge gives the later value while the denoted map gives the first.
- Properties.Step: a failed `pop` or `popindex` leaves the dictionary unchanged. The C code ends the process instead, so it has no state afterwards.
