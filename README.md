# BidirectionalMap, modelled in Dafny

A model of `bimap.go`. It is a lookup table from strings to strings that can
be searched by key or by value. The struct `BidirectionalMap` holds two Go
maps:

- `m1`, the forward table, maps each key to its value;
- `m2`, the reverse table, maps each value to its key.

`insert` writes one slot in each table. `findByKey` and `findByValue` each
read one table and return `""` when nothing is found. `find` tries the
forward table first and the reverse table second. `newBDMap` makes an empty
struct and inserts every entry of an optional source map.

Everything is in `bimap.dfy`, module `BiMap`. The model follows the two ways
the Go code uses the type:

- The lookups have value receivers, so each one reads a copy of the struct.
  They are member functions of the datatype `Tables(m1, m2)`, the struct's
  value.
- `insert` has a pointer receiver and updates both maps in place. It is the
  method `Insert` of the class `BidirectionalMap`, whose fields are the two
  maps. Its postcondition ties the new value of the struct to the function
  `Tables.Inserted` applied to the old value. `BidirectionalMap.Value()` is
  the copy that a value receiver sees.
- `newBDMap` is the method `NewBDMap`. Its loop picks any key it has not yet
  visited, with `:|`, because Go's map iteration order is unspecified. A
  ghost variable records the order the loop happened to pick. The lemma
  `LoadedInOrder` proves, for every order, the facts that `NewBDMap`
  promises. `InsertAll` applies a sequence of inserts, and `Entries` lists
  the inserts a given iteration order performs.
- A nil `from` map is `Option.None`. Go's `range` over a nil map does
  nothing, so `None` and `Some(map[])` give the same empty struct.

Two predicates name the structural facts:

- `Linked`: every value in one table is a key of the other.
- `Mirrored`: each table is the exact inverse of the other.

The code keeps `Linked`, starting from an empty struct. An overwrite breaks
`Mirrored`.

`findByKey`, `findByValue` and `find` also return `""` when the entry they
find holds `""` (bimap.go:22-23, 33-34, 45-46, 49-50). The contracts of
`Tables.FindByKey`, `Tables.FindByValue` and `Tables.Find` state that
condition exactly.

## Model

| member | source | states |
|---|---|---|
| `BiMap.Tables.Inserted` | bimap.go:13-15 | After insert(key, value), the forward table maps key to value and the reverse table maps value to key. Each table gains exactly that one key. Every other entry of both tables keeps its old value, and no key is removed. |
| `BiMap.BidirectionalMap.Insert` | bimap.go:13-15 | The in-place insert leaves the struct equal to `Inserted` applied to the old struct. If the old struct was `Linked`, the new one is too. |
| `BiMap.Tables.FindByKey` | bimap.go:21-26 | A non-empty result is the value stored for key. The result is `""` exactly when key is absent from m1 or is stored with the empty value. |
| `BiMap.Tables.FindByValue` | bimap.go:32-37 | The same as `FindByKey`, on the reverse table m2. |
| `BiMap.Tables.Find` | bimap.go:44-54 | If str is a key of m1, the result is m1[str], whatever m2 holds. Otherwise it is the reverse lookup of str. It is `""` exactly when the entry found holds `""` or str is in neither table. |
| `BiMap.BidirectionalMap.constructor` | bimap.go:59-62 | A new struct has two empty maps. |
| `BiMap.NewBDMap` | bimap.go:57-73 | Returns a new struct. With no source map, both tables are empty. Otherwise m1 equals the source and m2's keys are exactly the source's values. Each m2[v] is some source key whose value is v, and which one depends on iteration order. The tables are `Linked`. |
| `BiMap.Demo` | bimap.go:77-116 | The scenario in main builds from {one:1, two:2, three:3}, then inserts (four, 4) and (five, 5). Its eight lookups yield the eight lines main prints: "1", "", "one", "", "5", "five", "", "". |
| `BiMap.DemoLookups` | bimap.go:101-116 | main's eight lookups, evaluated on the struct main has built after its two inserts, give exactly the eight lines main prints. |
| `BiMap.DemoSourceLoaded` | bimap.go:86-98 | The hand-written struct in main's comment is a completed load of main's source map, and that source has no two keys sharing a value. |
| `BiMap.InsertPreservesLinked` | bimap.go:14 | If every value in each table is a key of the other, an insert keeps that true. |
| `BiMap.InsertIdempotent` | bimap.go:14 | Inserting the same pair twice gives the same struct as inserting it once. |
| `BiMap.OverwriteLeavesStale` | bimap.go:14 | After insert(k, v1) and then insert(k, v2), with v1 different from v2, findByKey(k) is v2. findByValue(v1) is still k, so the tables are no longer `Mirrored`. |
| `BiMap.InsertAllKeys` | bimap.go:14 | A sequence of inserts never removes a key. Each table's keys become its old keys plus the inserted keys (for m1) or the inserted values (for m2). |
| `BiMap.LastWriteWins` | bimap.go:13-37 | Take a pair in a sequence of inserts. If no later insert reuses its key or its value, findByKey and findByValue both find that pair afterwards. |
| `BiMap.InsertAllPreservesLinked` | bimap.go:13-15 | A whole sequence of inserts keeps `Linked`. |
| `BiMap.LoadedStep` | bimap.go:66-68 | Inserting one more source entry (k, from[k]) extends the loaded part of the source by k. |
| `BiMap.LoadedInOrder` | bimap.go:64-69 | Take any order of visiting source keys, starting from the empty struct. m1 holds exactly the visited entries. m2's keys are exactly their values, and each m2 entry leads back to a visited key with that value. |
| `BiMap.LoadedComplete` | bimap.go:57-73 | Once every source key has been visited, m1 equals the source and m2's keys equal the source's values. The tables are `Linked`. |
| `BiMap.LoadedUnique` | bimap.go:66-68 | When no two source keys share a value, a completed load is unique, so the iteration order does not matter. |
| `BiMap.Entries` | bimap.go:66-67 | The inserts the range loop performs for a given visiting order: the j-th insert is (order[j], from[order[j]]), one per visited key. |
| `BiMap.LastVisitedWins` | bimap.go:66-67 | For any source and any visiting order, take a visited key. If no key visited after it holds the same value, the reverse table maps that value to it and the forward table maps it to its value. |
| `BiMap.CollisionDependsOnOrder` | bimap.go:66-68 | An example: for the source {one:1, uno:1}, visiting one then uno leaves m2[1] = uno, and the opposite order leaves m2[1] = one. So the two orders give different structs. |

## Left out

- Printing in `main` (bimap.go:105-116) is output to stdout. `Demo` returns the eight strings that `main` prints.
- `NewBDMap` does not fix an iteration order. The loop picks any unvisited key, and the postconditions hold for every order.
- A nil source map is modelled as `Option.None`. Go pointer identity, and the difference between a nil map and an empty map, are not modelled.
- A zero-value `BidirectionalMap{}` has nil maps, and `insert` on it would panic. The code reaches a struct only through `newBDMap`, which always makes both maps, so that case is not modelled.
- Go maps are hash tables, and their memory use and allocation are not modelled. The code has no concurrency, so none is modelled.
