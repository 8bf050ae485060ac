# yron: YAML tree to orderable value tree

`yron` reads a YAML file and writes it back out as a RON file. This project
models the core of that tool. It covers:

- the `YamlSerialize` value type, whose variants mirror the parser's `Yaml`
  type, together with the total order and the equality that Rust derives for it;
- `convert`, which walks the parsed documents depth first and turns every
  `Yaml` node into a `YamlSerialize` value. Arrays are converted by recursion.
  Each hash entry's key and value are converted separately, as one-element
  vectors, and the pair is inserted into a fresh insertion-ordered map;
- the output file name that `create_ron_file` derives: the text before the
  first `.`, followed by `.ron`.

Modules:

- `Wrappers`: `Option` and `Result`.
- `RustInt`: the `i64` and `usize` payload types. `usize` is taken as 64-bit.
- `LinkedMap`: the insertion-ordered map, as its list of entries in iteration
  order. It has `Lookup`, `Insert`, and `FromPairs` (a fresh map into which a
  list of entries is inserted in order).
- `YamlRust`: the parser's `Yaml` tree. A hash is a list of entries, and
  `WellFormed` says that every hash in the tree has distinct keys. The parser
  builds its hashes as `LinkedHashMap`s, so this always holds.
- `Value`: `YamlSerialize`, and the derived comparison `Cmp`. `Cmp` orders
  variants by their declaration position, then compares payloads. Text,
  vectors and maps compare lexicographically.
- `Converter`: `ConvertValue`, `ConvertItems` and `ConvertPairs`, the functions
  that state what `convert` computes. The methods are proved against them:
  - `Convert` is the pushing loop;
  - `ConvertNode` is the `match` on one node;
  - `ConvertHash` is the inner insertion loop;
  - `ConvertOne` is `convert(vec![k]).remove(0)`.

  The module also has the lemmas about the conversion.
- `RonFile`: the split on `.` and the output name.

`convert` is imperative in the source: a loop pushes into a vector, and an
inner loop inserts into a mutable map. `Convert` and `ConvertHash` keep that
form, each with a `for` loop and its invariants. The ordered map is a value, a
sequence of entries that the inner loop reassigns.

## Model

| member | source | states |
|---|---|---|
| Converter.Convert | src/main.rs:111-137 | the result of the pushing loop equals `ConvertItems(yml)`: one output per input, in order, each the conversion of its input node |
| Converter.ConvertNode | src/main.rs:114-134 | the `match` on one node returns `ConvertValue` of that node |
| Converter.ConvertHash | src/main.rs:126-133 | inserting each entry's converted key and value, in source order, into a fresh map yields `Node(FromPairs(ConvertPairs(x)))` |
| Converter.ConvertOne | src/main.rs:130 | converting a one-element vector and removing its element gives the conversion of that node |
| Converter.ConvertValue | src/main.rs:114-134 | every node converts to the same-named variant: `Null` stays `Null`, `BadValue` stays `BadValue`, and no other variant becomes `BadValue`; `RoundTrip` proves that nothing is lost |
| Converter.ConvertItems | src/main.rs:111-136 | the converted vector has the input's length, and element i is the conversion of input element i: nothing is dropped, repeated or moved |
| Converter.ConvertPairs | src/main.rs:129-131 | the converted entry list has the hash's length, and entry i is entry i with its key and value each converted |
| Converter.ConvertPair | src/main.rs:130 | the key and the value of an entry keep their variants; `PairRoundTrip` proves that the entry is recovered |
| Converter.ScalarsKeepPayload | src/main.rs:115-121 | for every payload, each scalar variant converts to the same-named variant with its payload unchanged: float text verbatim, an alias index unresolved |
| Converter.ScalarExamples | src/main.rs:115-121 | `Real("1.50")` keeps its text verbatim, `Alias(3)` stays `Alias(3)` unresolved, and `BadValue` becomes `BadValue`, not `Null` |
| Converter.NestedArrayExample | src/main.rs:122-124 | `[1, [true, null]]` converts to `Array[Integer 1, Array[Boolean true, Null]]` |
| Converter.ConvertIsValid | src/main.rs:126-133 | every map the converter builds, at any depth, holds each key once |
| Converter.HashLastWriteWins | src/main.rs:126-132 | the value stored for a converted key is the converted value of the last source entry with that key |
| Converter.HashKeepsEntries | src/main.rs:126-133 | for a hash with distinct keys, the built map holds exactly the converted source entries, in source order, with as many entries as the source |
| Converter.RoundTrip | src/main.rs:115-133 | `Unconvert` recovers every well-formed tree from its conversion, so the conversion loses no information |
| Converter.ArrayRoundTrip | src/main.rs:122-124 | the round trip holds for an array node |
| Converter.HashRoundTrip | src/main.rs:126-133 | the round trip holds for a hash node |
| Converter.PairRoundTrip | src/main.rs:129-130 | the round trip holds for one hash entry |
| Converter.ConvertInjective | src/main.rs:115-133 | distinct well-formed trees convert to distinct values |
| LinkedMap.Lookup | src/main.rs:40 | an observer of the map type that the specification uses to state what inserts do; the source never calls it: `get` finds a key exactly when it is among the keys, returns a stored entry, and in a map with distinct keys returns that key's value |
| LinkedMap.Insert | src/main.rs:130 | inserting a new key appends the entry after all the others; inserting an existing key keeps the number of entries |
| LinkedMap.InsertLookup | src/main.rs:130 | after `insert(k, v)`, `k` maps to `v` and every other key maps to what it mapped to before |
| LinkedMap.InsertEntries | src/main.rs:130 | an insert adds its key to the keys; `(k, v)` is among the new entries, every old entry with another key survives, and no other entry appears |
| LinkedMap.InsertKeepsDistinct | src/main.rs:130 | an insert keeps the keys distinct |
| LinkedMap.FromPairs | src/main.rs:127-131 | a map built by successive inserts has distinct keys, exactly the inserted keys, and no more entries than inserts |
| LinkedMap.FromPairsEntries | src/main.rs:127-131 | every entry of the built map is one of the inserted pairs |
| LinkedMap.LastWriteWins | src/main.rs:127-131 | the value stored for a key is the value of the last inserted entry with that key |
| LinkedMap.FromPairsOfDistinct | src/main.rs:127-131 | inserting entries with pairwise distinct keys keeps every entry, in insertion order |
| LinkedMap.FromPairsKeepsAll | src/main.rs:127-131 | no entry is lost if and only if all the inserted keys are distinct |
| LinkedMap.DistinctCons | src/main.rs:40 | a fact about the map type's distinct-key invariant, used by the proofs, not code at that line: a list has distinct keys exactly when its tail does and its head key is not in the tail |
| LinkedMap.Keys | src/main.rs:40 | an observer of the map type that the specification uses, not code at that line: the keys of a map are its entries' keys, in iteration order |
| Value.Cmp | src/main.rs:13-38 | the derived `Ord::cmp`: equal values compare `Equal`; values of different variants are ordered by declaration, Real < Integer < String < Boolean < Array < Node < Alias < Null < BadValue; within a variant the payloads decide: integers and alias indices numerically, flags by `CmpBool`, float and string text by `CmpText`, arrays by `CmpItems`, maps by `CmpEntries` |
| Value.CmpBool | src/main.rs:23 | `bool` orders `false` before `true`, and is `Equal` exactly on equal flags |
| Value.CmpText | src/main.rs:17-21 | text orders lexicographically: equal texts are `Equal`, and a proper prefix comes first; `CmpTextFirstDiff` gives the rest |
| Value.CmpTextFirstDiff | src/main.rs:17-21 | texts that agree up to a position and differ there are ordered by the characters at that position |
| Value.CmpItems | src/main.rs:25 | `Vec` orders lexicographically: equal vectors are `Equal`, and a proper prefix comes first; `CmpItemsFirstDiff` gives the rest |
| Value.CmpItemsFirstDiff | src/main.rs:25 | vectors that agree up to a position and compare unequal there are ordered by the elements at that position |
| Value.CmpEntry | src/main.rs:29 | a map entry compares by key first: differing keys decide, and equal keys leave the order to the values |
| Value.CmpEntries | src/main.rs:29 | maps order lexicographically over their entries in iteration order: equal maps are `Equal`, and a proper prefix comes first; `CmpEntriesFirstDiff` gives the rest |
| Value.CmpEntriesFirstDiff | src/main.rs:29 | maps whose entries agree up to a position and compare unequal there are ordered by the entries at that position |
| Value.CmpEqual | src/main.rs:13-38 | the derived `cmp` answers `Equal` exactly for structurally equal values, so `Ord` and `Eq` agree |
| Value.CmpReverse | src/main.rs:13-38 | swapping the operands reverses the answer |
| Value.CmpTrans | src/main.rs:13-38 | "less than" is transitive |
| Value.CmpTextEqual | src/main.rs:17 | text compares `Equal` exactly when the texts are equal |
| Value.CmpTextReverse | src/main.rs:17 | swapping two texts reverses their comparison |
| Value.CmpTextTrans | src/main.rs:17 | lexicographic "less than" on text is transitive |
| Value.CmpItemsEqual | src/main.rs:25 | vectors compare `Equal` exactly when they are equal |
| Value.CmpItemsReverse | src/main.rs:25 | swapping two vectors reverses their comparison |
| Value.CmpItemsTrans | src/main.rs:25 | lexicographic "less than" on vectors is transitive |
| Value.CmpEntryEqual | src/main.rs:29 | map entries compare `Equal` exactly when they are equal |
| Value.CmpEntryReverse | src/main.rs:29 | swapping two map entries reverses their comparison |
| Value.CmpEntryTrans | src/main.rs:29 | "less than" on map entries is transitive |
| Value.CmpEntriesEqual | src/main.rs:29 | maps compare `Equal` exactly when their entry lists are equal |
| Value.CmpEntriesReverse | src/main.rs:29 | swapping two maps reverses their comparison |
| Value.CmpEntriesTrans | src/main.rs:29 | "less than" on maps is transitive |
| Value.LeIsTotalOrder | src/main.rs:13-38 | `<=` is reflexive, antisymmetric, transitive and total |
| Value.RealComparesAsText | src/main.rs:15-17 | floats compare as text: `"1.0"` is less than `"1.00"`, `"1.5"` differs from `"1.50"`, and `"10.0"` is less than `"9.0"` |
| RonFile.SplitNext | src/main.rs:76 | `split(".").next()` always yields a segment: the longest prefix that contains no `.` |
| RonFile.SplitNextUnique | src/main.rs:76 | that prefix is the only prefix without a `.` that ends at the end of the text or at a `.` |
| RonFile.RonFileName | src/main.rs:76-80 | the output name is always produced, so the error branch is unreachable; it is the first segment followed by `.ron` |
| RonFile.RonFileNameExamples | src/main.rs:76-80 | `"a.b.yml"` gives `"a.ron"`, `"cfg"` gives `"cfg.ron"`, and `".x.yml"` gives `".ron"` |

## Left out

- Reading the input file and decoding UTF-8 (src/main.rs:42-59): file I/O.
- Parsing via `YamlLoader`, the `YamlEmitter` dump and `println!` (src/main.rs:61-73): calls into an external library, and console output. The parser's result enters the model as a `Yaml` tree.
- `File::create` and `BufWriter` in `create_ron_file` (src/main.rs:82-86): file I/O. Only the name derivation is modelled.
- `main` (src/main.rs:89-107): argument handling, `PrettyConfig`, and RON serialization through `to_writer_pretty`, an external serializer.
- The derived `Hash` and the serde `Serialize` implementation (src/main.rs:13): hashing internals and serializer output belong to libraries.
- `Vec::with_capacity(yml.capacity())` (src/main.rs:112): an allocation detail with no observable effect.
- LinkedMap.Insert: an `insert` of a key already present replaces the value. Where that entry then sits is the model's choice: it stays where it was. The `linked_hash_map` crate is not part of this model, and it may instead detach the entry and re-attach it at the back; that behaviour is not captured here. No lemma about the conversion depends on the choice. Under conversion, repeated keys cannot occur (see below), and last-write-wins is stated through `Lookup`, not through positions.
- Value.Cmp: the order and equality of `LinkedHashMap` come from the crate. They are modelled as lexicographic over the entries in iteration order, each entry compared by key and then by value.
- Aliases are carried as their `usize` index and never resolved. The code checks neither for cycles nor for depth, and the model does not either.
- The `usize` payload of `Alias` is modelled with a 64-bit range.
- Converter.ConvertHash: the single Rust function is split into four methods, so that each method's proof stays small. `ConvertNode` is the match, `ConvertHash` its hash arm with the same inner loop, and `ConvertOne` the one-element conversion inside it. The methods recurse into each other exactly as the Rust function recurses into itself.
- Converter.Convert: `convert` consumes its vector, while the model reads an immutable sequence. Ownership and moves are not modelled.
- Two distinct source keys merging into one map key, for instance by a normalisation of real-number text, cannot happen. The conversion is injective (`ConvertInjective`) and the parser's hash keys are distinct, so `HashKeepsEntries` proves that the map keeps every entry in source order. `LastWriteWins` still states what an insert of a repeated key does, for entry lists in general.
