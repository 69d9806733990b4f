# ctrie_map in Dafny

`ctrie_map` is a header-only C++ library that builds a string-keyed map at
compile time. A list of `(key, value)` pairs, plus at most one default value,
becomes two things:

- an *index trie*, a type-level tree of entries. Each entry is a character
  edge, a leaf marker or a default marker.
- a fixed-length `std::array` holding the values.

A query string resolves by walking the trie to a *slot*, the position of its
value in the array. Unknown strings resolve to `size`. When there is a
default, `size` is the default's slot.

This project models that core on values:

- A node is the sequence of its entries.
- Insertion rebuilds the node and moves the touched entry behind the others,
  as the original's re-instantiated types do.
- Building folds insertion over the keys, left to right.
- Lookup takes the first matching edge and offsets the child's answer by the
  sizes of the entries before it.
- Slot assembly looks up every key in the finished trie and permutes the
  values into slot order.
- The finished map is a class holding the trie and an array.

The project proves four things:

- Building succeeds exactly when no key and no default repeats.
- A built trie holds exactly the keys it was given and has one slot per key.
- The length prune never changes a lookup, and `contains` agrees with
  `find != end`.
- The slots of the keys are a bijection onto `[0, capacity)`, so every value
  lands at its key's slot and the default's value lands at `size`.

The library's own compile-time tests and its demo program are restated as
lemmas and methods whose contracts follow from these proofs.

Modules: `Trie` (trie.dfy), `Insertion` (insert.dfy), `Lookup` (lookup.dfy),
`Layout` (layout.dfy), `ArrayMaps` (array_map.dfy), `Examples` (examples.dfy).

Two facts about the lookup code shape the model:

- `contains` ORs over every edge for the leading character (ctrie_map.h:204),
  while `find` takes only the first (ctrie_map.h:221). The two agree on every
  node the builder produces, because insertion never creates two edges for one
  character. The model proves `contains(s) == (find(s) != end)` for well-formed
  nodes (`Lookup.ContainsIffFound`), and proves that `contains` is exact
  key-set membership on every node (`Lookup.PruneNeverChangesContains`).
- `min_match_length` includes a literal 0 (ctrie_map.h:164), so it is always 0
  and only the upper length prune can fire (`Trie.MinMatchLength`).

## Model

| member | source | states |
|---|---|---|
| Trie.EntryEnd | ctrie_map.h:102-103 | An entry's "not found" value is its size, for edges, leaves and defaults alike |
| Trie.EntrySize | ctrie_map.h:102 | The slots an entry occupies: its child's size for an edge, 1 for a leaf (ctrie_map.h:144), 0 for a default (ctrie_map.h:130). A definition without a contract of its own; `Trie.EntryEnd` and the `Size` lemmas state its properties |
| Trie.Size | ctrie_map.h:189 | A node's size is the sum of its entries' sizes. A definition without a contract of its own; `Trie.SizeAppend`, `Trie.SizeRemoveAt` and `Insertion.InsertSize` state its properties |
| Trie.End | ctrie_map.h:191 | A node's end sentinel is its size. A definition without a contract of its own |
| Trie.Capacity | ctrie_map.h:190 | The capacity is never below the size, and exceeds it by one exactly when the node has a default |
| Trie.HasLeaf | ctrie_map.h:162 | Some entry is a leaf. A definition without a contract of its own |
| Trie.HasDefault | ctrie_map.h:163 | Some entry is a default. A definition without a contract of its own |
| Trie.Matches | ctrie_map.h:101 | Only an edge labelled with the character matches it; leaves and defaults never match (ctrie_map.h:127). A definition without a contract of its own |
| Trie.EntryMaxMatchLength | ctrie_map.h:99 | An edge's maximum match length is one more than its child's; a marker's is 0 (ctrie_map.h:133). A definition without a contract of its own |
| Trie.MaxMatchLength | ctrie_map.h:165 | The maximum over the entries' maximum match lengths and 0. A definition without a contract of its own; `Trie.MaxMatchLengthBound`, `Trie.MaxMatchLengthAttained` and `Lookup.LongestKey` state its properties |
| Trie.EntryMinMatchLength | ctrie_map.h:98 | An edge's minimum match length is one more than its child's; a marker's is the largest `size_t` (ctrie_map.h:132). A definition without a contract of its own |
| Trie.MinMatchLength | ctrie_map.h:164 | The minimum match length of every node is 0, because a literal 0 joins the minimum |
| Trie.SizeUntil | ctrie_map.h:61-71 | The summed sizes of the entries before the first one equal to the given entry never exceed the node's size |
| Trie.FirstMatch | ctrie_map.h:47-59 | The entry search returns the first entry matching the character, or "not found"; no earlier entry matches |
| Trie.SizeAppend | ctrie_map.h:189 | The size of concatenated entry lists is the sum of their sizes |
| Trie.SizeRemoveAt | ctrie_map.h:189 | Removing one entry takes exactly that entry's size from the node's size |
| Trie.SizeUntilBound | ctrie_map.h:61-71 | An entry's slot range, starting at the summed sizes before it, lies within the node's size |
| Trie.SizeUntilDisjoint | ctrie_map.h:61-71 | Two different entries of a node occupy disjoint slot ranges |
| Trie.SizeCover | ctrie_map.h:61-71 | On a node without repeated entries, every slot below the node's size falls in some entry's range |
| Trie.MaxMatchLengthBound | ctrie_map.h:165 | No entry's maximum match length exceeds its node's |
| Trie.MaxMatchLengthAttained | ctrie_map.h:165 | A positive maximum match length is attained by one of the node's edges |
| Insertion.InsertChars | ctrie_map.h:248-260 | Inserting a character key fails only as a duplicate key. An empty key appends a leaf. Otherwise the touched edge ends up last, the other entries keep their order, and a found edge leaves the entry count unchanged while a new edge adds one |
| Insertion.Insert | ctrie_map.h:183-187 | The default pseudo-key fails exactly when the node already has a default, and is appended otherwise. Failures are reported as duplicate key or multiple defaults, by kind |
| Insertion.Build | ctrie_map.h:308-309 | Building folds insertion over the keys, left to right, from the empty node, and stops at the first failure. A definition without a contract of its own; `Insertion.BuildCorrect` and `Examples.BuildChain` state its properties |
| Insertion.InsertKeySet | ctrie_map.h:171-181 | A successful insertion adds exactly the inserted key to the key set |
| Insertion.InsertFailsIffKey | ctrie_map.h:177-181 | On a well-formed node, insertion fails exactly when the key is already present |
| Insertion.InsertSize | ctrie_map.h:189 | A successful insertion adds exactly one slot |
| Insertion.InsertPreservesWellFormed | ctrie_map.h:248-260 | Insertion keeps a node well formed: no repeated entry, at most one edge per character, and non-empty, default-free children. It neither adds nor removes a default |
| Insertion.BuildCorrect | ctrie_map.h:308-309 | Building succeeds iff no key and no default repeats. The result is well formed, its keys are exactly the character keys given, it has a default iff one was given, and its capacity equals the number of keys given |
| Lookup.CallFind | ctrie_map.h:239-246 | An entry's hit maps to a slot below the node's end; the entry's end maps to the node's end |
| Lookup.Find | ctrie_map.h:207-223 | A lookup's answer never exceeds the node's end |
| Lookup.Contains | ctrie_map.h:193-205 | A contained query is never longer than the node's maximum match length; `Lookup.PruneNeverChangesContains` proves it is exactly key-set membership |
| Lookup.FindKey | ctrie_map.h:225-236 | The default pseudo-key resolves to the last capacity position, which needs a default; a character key resolves like its string |
| Lookup.ResolveFind | ctrie_map.h:207-223 | The loop that keeps `end` until the first matching entry answers computes exactly `Find` |
| Lookup.IsKeyBounded | ctrie_map.h:165 | No key is longer than the node's maximum match length |
| Lookup.PruneNeverChangesContains | ctrie_map.h:193-205 | `contains`, with its length prune, is exactly key-set membership, on every node |
| Lookup.OnlyMatch | ctrie_map.h:221 | In a well-formed node, the first matching edge is the only edge for that character |
| Lookup.FindHitIffKey | ctrie_map.h:207-223 | On a well-formed node, `find` hits a slot below the end exactly for the keys |
| Lookup.ContainsIffFound | ctrie_map.h:193-223 | On a well-formed node, `contains(s)` holds exactly when `find(s)` is not the end |
| Lookup.FindSlot | ctrie_map.h:239-246 | A key's slot is its entry's offset plus the child's slot for the rest of the key, inside that entry's range |
| Lookup.FindInjective | ctrie_map.h:207-223 | Two keys of a well-formed node with the same slot are equal; a key and its prefix included |
| Lookup.FindOnto | ctrie_map.h:207-223 | Every slot below a well-formed node's size is the slot of some key |
| Lookup.LongestKey | ctrie_map.h:165 | A non-empty well-formed node has a key exactly as long as its maximum match length, so the upper prune is tight |
| Layout.Slots | ctrie_map.h:317 | One slot per key, in the keys' order; a character key's slot is at most the end |
| Layout.SlotsAreBijection | ctrie_map.h:311-319 | For a built trie the key slots are below the capacity, character keys take `[0, size)`, no two keys share a slot, and every position is taken |
| ArrayMaps.FindKeyIdx | ctrie_map.h:79-87 | The first argument index whose slot equals the position, or the argument count when there is none |
| ArrayMaps.AssembleValues | ctrie_map.h:73-91 | Every position holds the value of an argument with that slot, and the first argument with a slot supplies that slot's value |
| ArrayMaps.ArrayMap.constructor | ctrie_map.h:276-279 | The array holds the given values in the given order |
| ArrayMaps.ArrayMap.Empty | ctrie_map.h:281 | The map is empty when its trie's size is 0. A definition without a contract of its own |
| ArrayMaps.ArrayMap.Size | ctrie_map.h:282 | The map's size is its trie's size. A definition without a contract of its own |
| ArrayMaps.ArrayMap.Capacity | ctrie_map.h:283 | The capacity is the array length: the size, plus one exactly when there is a default |
| ArrayMaps.ArrayMap.IndexOf | ctrie_map.h:284 | Indexing position of a string: a slot below the size, or the size itself |
| ArrayMaps.ArrayMap.ContainsKey | ctrie_map.h:291 | The map contains a string when its trie does. A definition without a contract of its own; `ArrayMaps.ArrayMap.FindPosition` ties it to `find` |
| ArrayMaps.ArrayMap.FindPosition | ctrie_map.h:292-293 | `find` returns the end exactly when the string is not contained |
| ArrayMaps.ArrayMap.End | ctrie_map.h:297-298 | The end position is the size, one past the iterated range. A definition without a contract of its own |
| ArrayMaps.ArrayMap.AtKey | ctrie_map.h:286-287 | Indexing by a key gives the value at its slot; an absent string gives the last element, which is the default |
| ArrayMaps.ArrayMap.At | ctrie_map.h:288-289 | Indexing by position gives the array element there |
| ArrayMaps.ArrayMap.Elements | ctrie_map.h:295-298 | Iteration covers the first `size` elements, which is all of them, or all but the final default |
| ArrayMaps.ArrayMap.HasDefault | ctrie_map.h:300 | The map has a default when its trie does. A definition without a contract of its own; `ArrayMaps.ArrayMap.Capacity` relates it to the array length |
| ArrayMaps.ArrayMap.GetDefault | ctrie_map.h:300-302 | `get_default` is the last element, at position `size` when there is a default |
| ArrayMaps.BuildMap | ctrie_map.h:311-319 | Building the map fails exactly as building the trie does. On success, every key is contained and its value sits at its slot. The default's value sits at `size`, and every position below `size` holds the value of the key resolving there |
| ArrayMaps.KeysAssembled | ctrie_map.h:314-318 | After assembly, each character key is contained, its slot is below the size, and its value is at its slot |
| ArrayMaps.DefaultAssembled | ctrie_map.h:232-236 | After assembly, the default's value is at position `size` |
| ArrayMaps.SizeRangeAssembled | ctrie_map.h:73-91 | After assembly, every position below the size holds the value of a key whose slot it is |
| Examples.QueryByKeys | ctrie_map.h:193-223 | For a built trie, `contains(s)` and `find(s) < size` both mean that `s` was given as a key |
| Examples.SizeByKeys | ctrie_map.h:189-190 | For a built trie, the capacity is the number of keys given, with a default iff one was given |
| Examples.IndexSingleInsertion | ctrie_map_tests.h:15-21 | The index of "A" has size 1; "A" is at 0, while "AA" and "B" resolve to 1 |
| Examples.IndexMultiInsertions | ctrie_map_tests.h:23-35 | The index of A, B, AB, AA, CD has size 5, contains "A" and "AA", and does not contain "AAA" |
| Examples.MapNoInsertions | ctrie_map_tests.h:40-45 | The empty map has size 0, capacity 0 and no default |
| Examples.MapSingleInsertion | ctrie_map_tests.h:47-55 | "A" = 0xA: size and capacity 1, no default, element 0 and `["A"]` are 0xA, and `find("B")` is the end |
| Examples.MapMultiInsertions | ctrie_map_tests.h:57-68 | A, ABC, FFF, AC: size and capacity 4, `["AC"]` is 0xAC and `["FFF"]` is 0xFFF |
| Examples.MapPartialKeyNotFound | ctrie_map_tests.h:67 | In that map, the proper prefix "FF" of "FFF" is not found |
| Examples.MapWithDefaultKey | ctrie_map_tests.h:71-86 | A, B and a default 0xDEF: size 2, capacity 3 with a default. `get_default` and `["C"]` give 0xDEF, `["A"]` gives 0xA, and `find("C")` is the end |
| Examples.InsertIntoEmpty | ctrie_map.h:255-260 | Inserting a key into an empty node makes the single path the key spells, which holds one slot |
| Examples.BuildChain | ctrie_map.h:308-309 | Building is inserting the keys one by one from the empty node |
| Examples.DemoTrie | main.cpp:9-15 | The demo keys AA, BA, A, AB and the default build a trie whose root holds the 'B' edge first, then the 'A' edge, then the default |
| Examples.DemoShape | main.cpp:9-15 | The demo trie has size 4 and maximum match length 2 |
| Examples.DemoSlots | main.cpp:9-15 | In the demo trie, AA, BA, A and AB resolve to slots 1, 0, 2 and 3 |
| Examples.DemoSlotOrder | main.cpp:25-33 | The demo keys' slots are 1, 0, 2, 3 and 4 in the order given. So iteration yields 0xBA, 0xAA, 0xA, 0xAB, and the default 0xBEEF comes after the iterated range |
| Examples.FindOrIndex | main.cpp:35-43 | The demo's per-argument lookup reports a found key's value, and otherwise the value that indexing gives, which is the default |

## Left out

- The type-level encoding: in the original every node and entry is a distinct C++ type, and every operation runs at compile time. Here they are ordinary values and functions.
- The `static_assert` failures (a duplicate key, a second default, `find(default_key)` without a default) are modelled as `Err` results or as preconditions. They are not compile errors.
- The keys-only `build_map` overload (ctrie_map.h:321-326) is not modelled. It builds the trie and a default-constructed array, and default construction has no counterpart for a generic value type.
- The `operator""_key` literal (ctrie_map.h:328-333) and the `operator=` pairing helpers (ctrie_map.h:14-29) are syntax only: a key is given as a `string`, and a value as a sequence element.
- Move and forwarding semantics (`std::forward`, `std::forward_as_tuple`) and the move-only `std::unique_ptr` map of the demo (main.cpp:17-21) are not modelled: values are plain values of type `T`, and ownership transfer is not expressed.
- Iterators and references: `begin`/`end`/`find` return positions rather than iterators, and the mutable reference overloads of indexing are read-only here.
- The demo program's `printf` output and its `argv` loop (main.cpp:23-46) are I/O. What it prints is covered by `Examples.DemoSlotOrder` and `Examples.FindOrIndex`.
- Examples.DemoSlotOrder: states the demo map's element order through the keys' slots and `ArrayMaps.BuildMap`'s contract, rather than by evaluating the concrete map built from the demo keys and values.
- `int` and `std::size_t` widths are not modelled. Sizes and slots are unbounded naturals; a trie large enough to overflow `int` cannot be instantiated by a compiler.
- Defaults below the root cannot arise from the builder and are not modelled: a default is only ever appended to the root.
- ArrayMaps.AssembleValues: requires every position to be some argument's slot. When none is, `find_key_idx` returns the argument count and the original fails to compile. `Layout.SlotsAreBijection` proves the requirement holds for every built trie.
