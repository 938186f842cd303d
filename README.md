# gRPC C++ metadata containers, modelled in Dafny

This project models the metadata layer of the gRPC C++ library declared in
`include/grpcpp/impl/codegen/metadata_map.h`. That layer has two sides.

- **Send side: `MetadataContainer`.** It is a multimap from string keys to type-erased
  values. `AddMetadata` wraps each value in its own heap object.
  - `GetMetadata` looks a value up by key. `GetMutableMetadata` hands out the stored
    object itself, for in-place update.
  - Every value can `Serialize` itself to bytes. `StringMetadataValue` serializes to its
    string.
  - `CreateCoreMetadataArray` turns the store into the flat array of (key, value) wire
    records the transport sends, one record per entry, in key order. The header does not
    contain this operation; its test calls it. The model appends one
    `grpc-status-details-bin` record when error details are given. That follows the gRPC
    convention of carrying binary status details under that trailer key;
    `metadata_map.h` does not define it.
- **Receive side: `internal::MetadataMap`.** It owns a `grpc_metadata_array` that starts
  zeroed and is filled by the transport.
  - `FillMap` indexes the array's records by key in a multimap of (key, value) views.
  - The destructor releases the array.

Modules, one file each:

- `Basics` (`basics.dfy`): bytes, and the unsigned lexicographic order of `std::string`
  and `string_ref` keys.
- `MultiMap` (`multimap.dfy`): `std::multimap` as a key-sorted sequence.
  - `Insert` places a new entry at the end of its key's equal range.
  - `ValuesOf` is a key's equal range.
  - `FindLast` is the lookup policy.
- `Values` (`values.dfy`): metadata values, `Serialize`, `Status` and wire records.
- `Store` (`store.dfy`): the send-side store as a value. It defines the typed lookup
  `Get`, the materialization `WireArray`, and the lemmas relating them to `Insert`.
- `Container` (`container.dfy`): the `MetadataContainer` and `SerializableModel` classes,
  each proved against `Store`.
- `Receive` (`receive.dfy`): the `grpc_metadata_array` and `MetadataMap` classes, the
  `FillMap` loop, and the send-then-receive lemma.

## Model

| member | source | states |
|---|---|---|
| Basics.LessTransitive | include/grpcpp/impl/codegen/metadata_map.h:81 | The key order of the multimap is transitive. |
| Basics.LessTotal | include/grpcpp/impl/codegen/metadata_map.h:81 | Any two keys are equal or ordered one way or the other. |
| Basics.LessIrreflexive | include/grpcpp/impl/codegen/metadata_map.h:81 | No key is below itself. |
| MultiMap.Insert | include/grpcpp/impl/codegen/metadata_map.h:38-39 | `multimap::insert` adds exactly one entry and keeps every earlier entry, including ones with the same key: the multiset of entries grows by exactly (k, v). |
| MultiMap.InsertSorted | include/grpcpp/impl/codegen/metadata_map.h:38-39 | After an insert the entries are still sorted by key. |
| MultiMap.InsertValuesOf | include/grpcpp/impl/codegen/metadata_map.h:38-39 | Inserting (k, v) appends v at the end of k's equal range and leaves every other key's range unchanged. |
| MultiMap.FindLast | include/grpcpp/impl/codegen/metadata_map.h:43 | The lookup finds no index exactly when no key equals k. Otherwise it returns an index holding k with no later index holding k. |
| MultiMap.FindLastIsLastOfRange | include/grpcpp/impl/codegen/metadata_map.h:43 | The lookup fails exactly when k's equal range is empty. Otherwise it picks the most recently added value of that range. |
| MultiMap.InsertAll | include/grpcpp/impl/codegen/metadata_map.h:107-112 | Inserting a sequence of pairs one by one adds exactly those pairs. |
| MultiMap.InsertAllSorted | include/grpcpp/impl/codegen/metadata_map.h:107-112 | Repeated inserts keep the entries sorted. |
| MultiMap.InsertAllValuesOf | include/grpcpp/impl/codegen/metadata_map.h:107-112 | After repeated inserts, each key's range is its old range followed by that key's inserted values in insertion order; duplicates are kept. |
| Values.Serialize | include/grpcpp/impl/codegen/metadata_map.h:87-91 | A string value always serializes with status OK to its string's bytes. A value succeeds exactly when it is a string or its encoding exists. |
| Store.Get | include/grpcpp/impl/codegen/metadata_map.h:42-49 | The lookup is NotFound exactly when the key has no entry. Found holds the most recently added value of the key when its kind matches. A value of another kind is reported as a mismatch. |
| Store.GetAfterAdd | test/cpp/codegen/metadata_test.cc:61-68 | Right after `AddMetadata(k, v)`, `GetMetadata(k)` succeeds with exactly v, for string and proto values alike. |
| Store.AddFreshKey | test/cpp/codegen/metadata_test.cc:61-68 | Adding (k, v) for a key with no entry yet leaves v as the only value under k, so any entry `find` may pick is v. |
| Store.GetAfterAddOther | include/grpcpp/impl/codegen/metadata_map.h:37-40 | Adding under one key never changes what a lookup of another key yields. |
| Store.GetAfterSet | test/cpp/codegen/metadata_test.cc:70-83 | Replacing the value of the entry a lookup resolves to makes the next lookup of that key return the new value. Lookups of other keys are unchanged. |
| Store.GetAsWritten | include/grpcpp/impl/codegen/metadata_map.h:42-49 | As written, the lookup returns true exactly when the key has an entry, and the caller's pointer keeps what it held. |
| Store.AddThenGetAsWritten | test/cpp/codegen/metadata_test.cc:61-68 | After adding (k, v), the lookup as written reports true but leaves a null pointer null. The corrected `Get` returns v. |
| Store.SerializeAll | test/cpp/codegen/metadata_test.cc:137-153 | Serializing the store succeeds exactly when every value serializes. On success it gives one record per entry, in key order, pairing the key with the value's bytes. On failure it names the first failing entry's key and status. |
| Store.WireArray | test/cpp/codegen/metadata_test.cc:137-153 | Materialization gives N records for N entries with empty error details, and N + 1 otherwise, the last being the status-details record. Record i is entry i's key with its serialized value. Any failing Serialize gives the error instead of an array. |
| Store.WireArraySucceeds | test/cpp/codegen/metadata_test.cc:137-153 | When every entry serializes, the wire array is exactly the per-entry records plus the optional status-details record. |
| Store.WireArrayFails | test/cpp/codegen/metadata_test.cc:137-153 | When entry i is the first to fail, materialization fails with entry i's key and status. |
| Store.StringStoreMaterializes | test/cpp/codegen/metadata_test.cc:137-153 | A store holding only strings always materializes, into one record per entry carrying the string's bytes. |
| Store.TwoEntriesMaterialize | test/cpp/codegen/metadata_test.cc:137-153 | A string entry added first and a proto entry under a lower key give exactly two records in key order, each carrying its own value's bytes. |
| Container.AddTwoThenMaterialize | test/cpp/codegen/metadata_test.cc:137-153 | On a live container, a string entry added first and a proto entry under a lower key, then materialized with no error details, give no error, count 2, and the two records in key order. |
| Container.TwoEntryScenario | test/cpp/codegen/metadata_test.cc:137-153 | The test's own scenario: "string" with "bar", then "proto" with encoding b, give count 2 and the records ("proto", b), ("string", "bar"). |
| Store.ProtoBelowString | test/cpp/codegen/metadata_test.cc:139-143 | The test's keys are ordered "proto" before "string". |
| Container.SerializableModel.constructor | include/grpcpp/impl/codegen/metadata_map.h:71 | The model object holds the value it was built from. |
| Container.SerializableModel.Serialize | include/grpcpp/impl/codegen/metadata_map.h:73 | The erased Serialize returns exactly what the held value's own Serialize returns. |
| Container.MetadataContainer.constructor | include/grpcpp/impl/codegen/metadata_map.h:81 | A new container holds no entries. |
| Container.MetadataContainer.AddMetadata | include/grpcpp/impl/codegen/metadata_map.h:37-40 | AddMetadata never fails and accepts any key. The new contents are `Insert` of the old contents, with the value in a fresh object. Every earlier entry keeps its object, so objects handed out before stay in the store. The store stays sorted and its objects distinct. |
| Container.MetadataContainer.GetMetadata | include/grpcpp/impl/codegen/metadata_map.h:42-49 | The lookup on the live objects is `Store.Get` of the contents, and it reads without writing. |
| Container.MetadataContainer.GetMutableMetadata | include/grpcpp/impl/codegen/metadata_map.h:51-58 | It returns NotFound exactly when GetMetadata does, and otherwise the very stored object that the last entry for the key points to. It changes nothing. |
| Container.MutationVisible | test/cpp/codegen/metadata_test.cc:106-124 | A write through the object GetMutableMetadata returned is what the next GetMetadata of that key returns. No other entry and no other key's lookup changes. |
| Container.MetadataContainer.CreateCoreMetadataArray | test/cpp/codegen/metadata_test.cc:137-153 | It returns a fresh array whose contents are exactly `WireArray` of the store, or no records and the error. The store is left as it was. |
| Container.Materialize | test/cpp/codegen/metadata_test.cc:137-153 | The loop serializes each entry's object in key order into a fresh array. It stops at the first failure and returns `WireArray`'s result. |
| Receive.MetadataArray.Zeroed | include/grpcpp/impl/codegen/metadata_map.h:100 | The zeroed array has count 0, capacity 0 and no storage. |
| Receive.MetadataMap.constructor | include/grpcpp/impl/codegen/metadata_map.h:100 | A new map owns a fresh zeroed array, an empty index, and has not been released. |
| Receive.MetadataMap.FillMap | include/grpcpp/impl/codegen/metadata_map.h:106-113 | The index becomes the old index with one (key, value) pair inserted per record in use, in record order. It is never cleared, and it stays sorted. |
| Receive.IndexRecords | include/grpcpp/impl/codegen/metadata_map.h:107-112 | The loop inserts the pair of each of the first count records, in order, and ends with `InsertAll` of them. |
| Receive.Pairs | include/grpcpp/impl/codegen/metadata_map.h:109-111 | Each record's key and value become one pair, in record order. |
| Receive.MetadataMap.Destroy | include/grpcpp/impl/codegen/metadata_map.h:102-104 | The destructor releases the array whether or not FillMap ran, and only once. |
| Receive.FillKeepsEveryRecord | include/grpcpp/impl/codegen/metadata_map.h:106-113 | FillMap adds exactly count entries. Each key's values are the earlier ones followed by the values of the records with that key, in record order, duplicates kept. |
| Receive.FillTwice | include/grpcpp/impl/codegen/metadata_map.h:106-113 | A second FillMap on the same array indexes every record again: each key's values appear twice. |
| Receive.SentThenIndexed | include/grpcpp/impl/codegen/metadata_map.h:106-113 | Suppose a store materializes without error details and a fresh map indexes the records. Then each key's received values are the sent values, serialized, in the sender's order. |

## Left out

- Protobuf encoding is opaque. A proto value carries the encoding the message codec would produce, or nothing when the codec refuses it. `ProtoMetadataValue` is not part of this model.
- Values.Serialize: the status of a refused proto encoding (INTERNAL, with a fixed message) is chosen by the model.
- `shared_ptr` reference counting and object lifetimes are not modelled. Each entry owns one object.
- `Slice`, `grpc::string` and `string_ref` are modelled as their byte contents.
  - FillMap's views are copies of the record bytes in the model.
  - So aliasing between the views and the array is not captured, for example a later change to the array's bytes showing through a view.
- `CreateCoreMetadataArray` does not appear in the header; only its test calls it (test/cpp/codegen/metadata_test.cc:145).
  - It is modelled from that test, with two conventions the model adopts: the `grpc-status-details-bin` record goes last for non-empty error details, following the gRPC trailer convention for binary status details, and a failing Serialize yields no array.
  - The caller's ownership of the array and its freeing are not modelled.
- `grpc_metadata` flags and internal fields are not modelled. A record is its key and value.
- The transport filling the array handed out by `arr()` is represented by `Receive.MetadataArray.Deliver`.
- `map()` and `arr()` only return the address of a field. The model exposes the fields `index` and `arr` directly, so they have no members of their own. Writes by callers through the returned pointers are not modelled.
- `grpc_metadata_array_destroy` is the ghost flag `released`. Freeing memory is not modelled.
- `std::multimap::find` may return any entry of the equal range, and libstdc++ and libc++ return the first one. The model fixes the most recently added one.
  - Store.GetAfterAdd, Store.GetAfterSet and Container.MutationVisible rely on that choice when the key already had entries.
  - Store.AddFreshKey covers a key with no entry yet, the only case the tests exercise, and holds whatever entry `find` picks.
- Container.MetadataContainer.GetMetadata returns a copy of the stored value, not a const pointer to the stored object. A const pointer kept across a later write through `GetMutableMetadata` is not modelled; Container.MutationVisible states what the next lookup returns instead.
- The source's typed lookup has no type check. The model compares the datatype tag and reports a mismatch instead of reinterpreting the value.
- Receive.MetadataMap.FillMap: the source inserts into `map_` one record at a time. The model builds the new index in `IndexRecords` and then stores it, which gives the same final state with no observer in between.
- Integer widths (`size_t` counts), allocation failure and concurrency are not modelled.
- `src/core/lib/support/function.h` is not part of this model. It is a generic callable wrapper, unrelated to metadata.
- `src/core/lib/support/string_util_windows.cc` is not part of this model. It wraps Win32 calls.
- The end-to-end test, the benchmark driver and the Python route-guide examples are not part of this model. They are I/O and networking.

## Findings

| source | as written | input that shows it | evidently intended | confidence | as-written member | corrected member |
|---|---|---|---|---|---|---|
| include/grpcpp/impl/codegen/metadata_map.h:42-58 | Line 47 (and 56) assigns the multimap iterator from line 43 to `dst`, a pointer parameter taken by value. The test passes `&gotten`, a pointer to a pointer, so the templates do not compile once instantiated. Read as a by-value pointer parameter, the assignment only changes the callee's copy, so the caller could never see the value. | `AddMetadata("foo", StringMetadataValue("bar"))`, then `GetMetadata("foo", &gotten)` (test/cpp/codegen/metadata_test.cc:63-67). As written this does not compile; under the by-value reading it would return true with `gotten` left null. | Write the found value to the caller, as the tests expect. | not executed; the compile failure follows from the types on lines 42-43, 47 and the test's argument | Store.AddThenGetAsWritten | Store.GetAfterAdd |
