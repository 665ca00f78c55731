# dynamodb-batch-iterator: batch reads and write-request identity

This project models two parts of the DynamoDB batch iterator and proves properties of them.

**The read-side batch step (`BatchGet`).** A batch read keeps these pieces of state:

- a queue `toSend` of reads waiting to go out; each read is a table name and a marshalled key;
- a state per table: its read options and its backoff factor;
- a queue `pending` of results waiting to be handed out.

One round (`doBatchRequest`) does the following:

1. It takes up to 100 reads (`MAX_READ_BATCH_SIZE`) off the front of `toSend`.
2. It groups them by table into the `RequestItems` of one BatchGetItem request. A table's part is created the first time the table is met, and it carries the table's `ConsistentRead`, `ProjectionExpression` and `ExpressionAttributeNames`.
3. It handles the response:
   - Every unprocessed key list goes to the engine's `handleThrottled`.
   - The set of those tables then goes to `movePendingToThrottled`.
   - Every table listed in `Responses`, even one whose item list is empty, has its backoff factor lowered by one, never below zero.
   - Every returned item is appended to `pending`, tagged with its table.

A table's options come from `getInitialTableState`. A per-table `ConsistentRead` overrides the batch-wide default. Projection and attribute-name aliases come only from the per-table entry.

**Write-request identity (`itemIdentifier`).** A write request is identified by a string made of three parts:

1. the table name;
2. `::delete::` for a delete with a key, or `::put::` for a put with an item; a delete key wins over a put item;
3. the key-type attributes of the key or item.

The attributes are taken in ascending order of name, and each one is rendered as `name=value`. For `value`:

- a truthy `B` is rendered as the comma-joined decimal bytes of its binary value;
- otherwise a non-empty `N`, and otherwise a non-empty `S`, is rendered as is.

The entries are joined by `&`. A binary value may be given as a typed array or DataView, as an ArrayBuffer, or as a string, which stands for its UTF-8 bytes. Any other kind of binary value is refused with "Unrecognized binary type". A request with neither a key nor an item is refused with "Invalid write request provided".

The modules are these:

- `Wrappers`: Option and Result.
- `JsRuntime`: the JavaScript behaviour the identifier relies on:
  - the UTF-16 code-unit order of strings and the default `Array.prototype.sort`;
  - `Array.prototype.join`;
  - the decimal rendering of a byte, and `Uint8Array.prototype.toString`.
- `Utf8Bytes`: UTF-8 encoding as section 3 of RFC 3629 defines it.
- `AttributeValues`: attribute values, attribute maps and write requests.
- `ItemIdentity`: `toByteArray`, `serializeKeyTypeAttributes` and `itemIdentifier`.
- `BatchTypes`: the option records and the table state.
- `BatchGet`:
  - the request builder and the response bookkeeping, as functions with their properties;
  - the class `BatchGet`, whose methods update `toSend`, `state`, `pending` and a log of the calls made into the generic engine.

JavaScript objects (an item, `RequestItems`, `Responses`, `UnprocessedKeys`) are modelled as lists of properties in insertion order. `Object.keys` lists integer-like keys first, in ascending numeric order; the model does not reorder them (see "Left out").

The two engine hooks, `handleThrottled` and `movePendingToThrottled`, belong to the generic engine, whose code is not part of this model. Their contracts state only what the batch read relies on: the call is logged, no table state is added or removed, no read joins the queue, and the class invariant holds. Their bodies are one behaviour those contracts admit: a throttled table's backoff factor goes up by one, and the queued reads of the throttled tables leave the queue.

## Model

| member | source | states |
|---|---|---|
| BatchGet.InitialTableState | src/BatchGet.ts:96-109 | The table's name is set, and its backoff factor is 0. The per-table ConsistentRead is used when it is set, and the batch-wide default otherwise, including when the table has no entry. Projection and aliases are those of the per-table entry, or absent when there is none. |
| BatchGet.BatchGet.constructor | src/BatchGet.ts:37-45 | It keeps the default ConsistentRead and the per-table options, which default to an empty set of options. It starts with no queued reads, no table states and no results. |
| BatchGet.BatchGet.Enqueue | src/BatchGet.ts:96-109 | The read joins the end of the queue. A table met for the first time gets its initial state from `InitialTableState`, and every other state is unchanged. |
| BatchGet.IndexOfTable | src/BatchGet.ts:57 | It finds the request's part for table t exactly when the request has one, and the index it returns holds table t. This is the corrected own-property lookup; the test as written is modelled by `AddKeyAsWritten`. |
| BatchGet.AddKey | src/BatchGet.ts:57-67 | A part is appended for the read's table exactly when the request has none, and the tables of the existing parts keep their order. This is the corrected step; the step as written is `AddKeyAsWritten`. |
| BatchGet.RequestFor | src/BatchGet.ts:47-72 | The request has at most one part per read. Its full shape is stated by `RequestShape`, and its keys by `RequestKeepsReads`. |
| BatchGet.BatchGet.AddToRequest | src/BatchGet.ts:57-67 | It creates the table's part, with the table's options and no keys, when the request has none, then pushes the key onto the part. The result is one step of the corrected request builder (`AddKey`), which looks up own properties only; the code as written is `AddKeyAsWritten`. |
| BatchGet.BatchGet.BuildRequest | src/BatchGet.ts:47-72 | It takes exactly min(\|toSend\|, 100) reads off the front of the queue, and the rest of the queue keeps its order. The request is the one the builder makes from exactly those reads. The request is also the first of the requests that would send the whole queue, and the rest of those requests are the ones for the reads that are left. The builder is the corrected one (`AddKey`), not the code as written (`AddKeyAsWritten`). |
| BatchGet.AddKeyAddsRead | src/BatchGet.ts:57-67 | One builder step adds exactly the one read to the keys of the request, counted with multiplicity. |
| BatchGet.RequestKeepsReads | src/BatchGet.ts:49-72 | The request built from reads q carries exactly the reads of q, none lost and none duplicated. Its key count is \|q\|, so a request for at most 100 reads carries at most 100 keys. |
| BatchGet.RequestShape | src/BatchGet.ts:57-67 | The request has one part per table, in order of each table's first occurrence among the reads. A part's keys are those of its table, in queue order, and the part carries exactly the options stored for its table. |
| BatchGet.Batches | src/BatchGet.ts:51-71 | Sending n queued reads with no refill takes ceil(n / 100) requests. |
| BatchGet.BatchAt | src/BatchGet.ts:51-71 | Request i is the one built from the reads at positions 100 i to 100 i + 99. |
| BatchGet.BatchesPartition | src/BatchGet.ts:51-71 | Request i carries the reads from position 100 i on, and between 1 and 100 keys. |
| BatchGet.ThreeHundredTwentyFiveReads | src/BatchGet.ts:51-71 | A queue of 325 reads is sent as 4 requests, the last of which carries 25 keys. |
| BatchGet.AddKeyAsWritten | src/BatchGet.ts:57-67 | For a table with an ordinary name, the step as written equals the corrected step. For a table named like an `Object.prototype` member that has no part yet, the step as written leaves the request unchanged. |
| BatchGet.AsWrittenAgrees | src/BatchGet.ts:51-72 | When no table is named like an `Object.prototype` member, the builder as written makes the same request as the corrected one. |
| BatchGet.InheritedTableNameDropsKey | src/BatchGet.ts:57-67 | A read from a table called "constructor" leaves the queue, but the request as written carries 0 keys, while the corrected request carries 1. |
| BatchGet.ThrottledCalls | src/BatchGet.ts:76-83 | It makes at most one `handleThrottled` call per unprocessed entry. |
| BatchGet.ThrottledCallsExact | src/BatchGet.ts:77-82 | `handleThrottled(t, keys)` is called if and only if the response lists `keys` as t's unprocessed key list, even when that list is empty. |
| BatchGet.GetThrottledKeys | src/BatchGet.ts:77-80 | For a table in the unprocessed set, it returns a key list that the response gives for that table. |
| BatchGet.ThrottledTablesAreCalled | src/BatchGet.ts:76-85 | A table is in the set passed to `movePendingToThrottled` if and only if it had a `handleThrottled` call, and each such table had one with its own keys. |
| BatchGet.BatchGet.HandleThrottled | src/BatchGet.ts:81 | The `handleThrottled` call is appended to the log of engine calls. No table state is added or removed, no read joins the queue, and the invariant holds. |
| BatchGet.Unthrottled | src/BatchGet.ts:85 | It keeps exactly the queued reads whose table is not throttled. |
| BatchGet.BatchGet.MovePendingToThrottled | src/BatchGet.ts:85 | The `movePendingToThrottled` call is appended to the log of engine calls. No table state is added or removed, no read joins the queue, and the invariant holds. |
| BatchGet.BatchGet.HandleUnprocessed | src/BatchGet.ts:76-85 | It makes one `handleThrottled` call per unprocessed entry with a key list, in response order. It then makes one `movePendingToThrottled` call with exactly the set of those tables. No table state is added or removed, and no read joins the queue. |
| BatchGet.AfterSuccess | src/BatchGet.ts:89 | The new backoff factor is max(0, old − 1), so it is never negative. Nothing else in the table state changes. |
| BatchGet.Succeeded | src/BatchGet.ts:87-89 | Every table listed in `Responses` gets `AfterSuccess`, even one whose item list is empty. Every other table state is unchanged, and no table is added or removed. |
| BatchGet.SucceededKeepsConfigured | src/BatchGet.ts:87-89 | After the success bookkeeping, every state still holds its table's resolved options and a non-negative backoff factor. |
| BatchGet.BatchGet.PushResults | src/BatchGet.ts:90-92 | One table's items are appended to `pending` in order, each tagged with the table, and earlier results are unchanged. |
| BatchGet.Tagged | src/BatchGet.ts:87-93 | Every result is tagged with a table listed in `Responses`. |
| BatchGet.TaggedByTable | src/BatchGet.ts:87-93 | Among the results, the items tagged with table t are exactly the items the response returned for t, in response order. A table that returned nothing has none. |
| BatchGet.TaggedAt | src/BatchGet.ts:90-92 | For a response that names each table once, the results tagged with the table at index i are that entry's items. |
| BatchGet.TaggedAbsent | src/BatchGet.ts:90-92 | No result is tagged with a table that is absent from the response. |
| BatchGet.BatchGet.RecordResults | src/BatchGet.ts:87-93 | Each table listed in `Responses` gets one success, even when its item list is empty. The results are the earlier ones followed by every returned item tagged with its table, table by table. |
| BatchGet.BatchGet.HandleResponse | src/BatchGet.ts:74-93 | It treats a missing `Responses` or `UnprocessedKeys` as empty. It makes the engine calls of `HandleUnprocessed`. The new table states are those the hooks left (`afterHooks`: the same tables, each with its options), after one success for every table listed in `Responses`. The results gain the returned items, tagged and in order. No read joins the queue, and the class invariant holds. |
| BatchGet.BatchGet.DoBatchRequest | src/BatchGet.ts:47-94 | The request is the one the corrected builder (`AddKey`, not `AddKeyAsWritten`) makes from the first min(\|toSend\|, 100) queued reads. The queue keeps only reads that were behind those. The engine calls, the table states after the hooks and the successes, and the results are those of `HandleResponse`. |
| ItemIdentity.ToByteArray | src/itemIdentifier.ts:33-47 | A view, a string or an ArrayBuffer gives bytes. Any other value fails with "Unrecognized binary type", and nothing else fails. |
| ItemIdentity.SourcesOfSameBytes | src/itemIdentifier.ts:33-44 | A view and an ArrayBuffer holding the bytes it covers denote the same bytes. So do a non-empty string and the ArrayBuffer of its UTF-8 encoding, and a view and a string whose bytes coincide. |
| ItemIdentity.Entry | src/itemIdentifier.ts:20-27 | It fails exactly when `B` holds a value of no recognised binary kind. It gives no entry exactly when `B` is absent or falsy and `N` and `S` are absent or empty. Any entry it gives starts with `name=`. |
| ItemIdentity.EntryPrecedence | src/itemIdentifier.ts:21-26 | For every name and attribute: a truthy `B` (`Truthy`: anything but the empty string) of a recognised kind gives `name=` and its bytes as comma-joined decimals. Otherwise a non-empty `N` (`Present`) gives `name=N`, and otherwise a non-empty `S` gives `name=S`. |
| ItemIdentity.EntryExamples | src/itemIdentifier.ts:21-26 | The bytes 1 and 2 give `k=1,2` whatever `N` and `S` hold. `N` wins over `S`, and an empty `N` falls through to `S`. |
| ItemIdentity.EmptyBinaryForms | src/itemIdentifier.ts:21-26 | An empty string in `B` is falsy and falls through to `N`. An empty ArrayBuffer is truthy and gives `k=`. |
| ItemIdentity.Entries | src/itemIdentifier.ts:19-28 | The entries fail exactly when some named attribute holds an unrecognised binary, with that error, and there are at most as many entries as names. |
| ItemIdentity.Serialize | src/itemIdentifier.ts:17-31 | Serialisation fails exactly when some attribute of the map holds an unrecognised binary. The only error is "Unrecognized binary type". |
| ItemIdentity.SortedNamesAreNames | src/itemIdentifier.ts:19 | The sorted names are exactly the property names. |
| ItemIdentity.PushEntry | src/itemIdentifier.ts:21-27 | One turn of the loop pushes the attribute's entry, if it has one, onto the entries collected so far. It fails with the attribute's error when `B` is of no recognised kind. |
| ItemIdentity.SerializeKeyTypeAttributes | src/itemIdentifier.ts:17-31 | The loop over the sorted property names, which pushes entries and then joins them, computes `Serialize`. |
| ItemIdentity.Identifier | src/itemIdentifier.ts:7-15 | It fails with "Invalid write request provided" exactly when the request has neither a delete key nor a put item. A delete key wins and gives `table::delete::` followed by the key's serialisation. Otherwise a put item gives `table::put::` followed by the item's serialisation. A serialisation error is passed on. |
| ItemIdentity.ItemIdentifier | src/itemIdentifier.ts:7-15 | The branching of `itemIdentifier`, which serialises with the loop, computes `Identifier`. |
| ItemIdentity.PutAndDeleteNeverCollide | src/itemIdentifier.ts:8-11 | For one table, the identity of a delete never equals that of a put. |
| ItemIdentity.SerializeIgnoresOrder | src/itemIdentifier.ts:17-31 | Two objects with the same properties, inserted in different orders, serialise the same. |
| ItemIdentity.IdentifierIgnoresOrder | src/itemIdentifier.ts:7-19 | The identity of a write request does not depend on the order in which the attributes of its key or item were inserted. |
| ItemIdentity.GetAfterUpdate | src/itemIdentifier.ts:20 | Replacing one attribute's value changes a property lookup into that new value or leaves it as it was. |
| ItemIdentity.BinaryFormIrrelevant | src/itemIdentifier.ts:21-22 | Replacing a truthy binary value by another form that denotes the same bytes does not change the serialisation. |
| AttributeValues.PropertyNames | src/itemIdentifier.ts:19 | `Object.keys` gives the property names, in order, one per property. |
| AttributeValues.Get | src/itemIdentifier.ts:20 | Looking up a property the object has gives a value stored under that name. |
| AttributeValues.GetUnique | src/itemIdentifier.ts:20 | In an object with distinct names, a lookup gives exactly the value stored under the name. |
| JsRuntime.Sort | src/itemIdentifier.ts:19 | The default sort returns a permutation of its input in ascending UTF-16 code-unit order. |
| JsRuntime.StrictlyIncreasingUnique | src/itemIdentifier.ts:19 | Two strictly increasing sequences with the same elements are equal. |
| JsRuntime.SortIgnoresOrder | src/itemIdentifier.ts:19 | Sorting two arrangements of the same distinct names gives the same sequence. |
| JsRuntime.CodeUnits | src/itemIdentifier.ts:19 | A string of n characters has between n and 2n UTF-16 code units, each below 0x10000. |
| JsRuntime.LessIrreflexive | src/itemIdentifier.ts:19 | No string is less than itself. |
| JsRuntime.LessTransitive | src/itemIdentifier.ts:19 | The string order is transitive. |
| JsRuntime.LessTotal | src/itemIdentifier.ts:19 | The string order is total, which is the property that makes the sort order well defined. |
| JsRuntime.CodeUnitsInjective | src/itemIdentifier.ts:19 | Distinct strings have distinct UTF-16 code-unit sequences. |
| JsRuntime.DecimalString | src/itemIdentifier.ts:22 | The rendering of a number is a non-empty string of decimal digits. |
| JsRuntime.DecimalRoundTrip | src/itemIdentifier.ts:22 | Reading back the decimal rendering of a byte gives the byte. |
| JsRuntime.Join | src/itemIdentifier.ts:30 | A join starts with its first part. |
| JsRuntime.SplitJoin | src/itemIdentifier.ts:22 | Splitting a join at its one-character separator gives back the parts, when no part contains the separator. |
| JsRuntime.BytesToStringInjective | src/itemIdentifier.ts:22 | Distinct byte sequences are rendered as distinct strings, so a binary key's entry determines its bytes. |
| Utf8Bytes.Encode | src/itemIdentifier.ts:39 | A string of n characters encodes to between n and 4n bytes. |
| Utf8Bytes.DecodeEncode | src/itemIdentifier.ts:39 | Decoding the UTF-8 encoding of a string gives back its scalar values, so the encoding is injective. |

## Left out

- `client.send`, the construction of `BatchGetItemCommand`, and the `await` (src/BatchGet.ts:73-74) are left out. The response is a parameter of `DoBatchRequest` and `HandleResponse`.
- The generic engine `BatchOperation` is not part of this model. This covers:
  - its iteration over the source of reads, which `Enqueue` stands for;
  - the code of `handleThrottled` and `movePendingToThrottled`: their contracts state only what the batch read relies on;
  - the throttling tracker and backoff timers of each table state;
  - the base `getInitialTableState`, which is taken to give `name` = the table and `backoffFactor` = 0.
- Async iteration, promises and timers are left out. A round is modelled as one sequential call.
- `BatchGet.BatchGet.DoBatchRequest`: it is split into `BuildRequest` and `HandleResponse` at the `await`. The state between the two halves is only what the source leaves there.
- `BatchGet.BatchGet.HandleResponse` requires every table in `Responses` to have a state, and each table to be named once. The store only answers for tables it was asked about, and a JavaScript object cannot repeat a property. Under the source, a table with no state would raise a TypeError.
- `BatchGet.BatchGet.HandleThrottled`: its contract does not say how the table state changes, only that no table is added or removed and that the invariant holds. The engine's code is not part of this model; the body raises the table's backoff factor by one.
- `BatchGet.BatchGet.MovePendingToThrottled`: its contract does not say which reads leave the queue, only that none joins it. The body removes the throttled tables' reads, as the engine's design describes.
- `BatchGet.BatchGet.HandleResponse`: the successes are stated on `afterHooks`, the table states the hooks leave, and not on the states before the call, because the hooks may change them. The contract does not say what the queue holds afterwards, only that no read joined it.
- `BatchGet.BatchGet.DoBatchRequest`: for the same reason, the queue after a round is stated only as holding no read that was not behind the ones sent, and the successes are stated on `afterHooks`.
- `BatchGet.RequestFor`: its own contract only bounds the number of parts. Its full shape and its keys are stated by the lemmas `RequestShape` and `RequestKeepsReads`.
- The order of `Object.keys` is not modelled for integer-like keys, which JavaScript lists first in ascending numeric order. For a table named like `"123"`, the real order of the parts of `RequestItems`, of the `handleThrottled` calls and of the results can differ from the insertion order that `RequestShape`, `ThrottledCalls` and `Tagged` state. Attribute names are sorted before use, so the identifier does not depend on it.
- `AttributeValues.Get`: it is total. For a name the object does not have, it returns an attribute with no members. The modelled code only looks up names the object has.
- The runtime type probing of `toByteArray` (`ArrayBuffer.isView`, `typeof`, `instanceof` and `Object.prototype.toString`) is replaced by a tagged datatype of binary sources.
- Blobs and other values that are truthy but not binary are one `Unrecognized` case.
- The `utf8-bytes` package is modelled as the UTF-8 encoder of section 3 of RFC 3629, over Unicode scalar values. Strings holding lone UTF-16 surrogates are not modelled.
- No identifier is claimed to be injective, because values are not escaped: `&` and `=` inside values can make two requests share an identity.
- An unprocessed entry whose `Keys` is an empty list is throttled like any other. This is because the code tests `keys != null`; a non-empty list is not required.

## Findings

| source | as written | input that shows it | evidently intended | confidence | as-written member | corrected member |
|---|---|---|---|---|---|---|
| src/BatchGet.ts:57-67 | `RequestItems[tableName] === undefined` on a plain object also sees the members that every object inherits from `Object.prototype`. For a table named like one of them, no part is created, and the optional-chained `push` does nothing. | A queue holding one read from a table called `constructor`: the read leaves the queue and is counted, but the request carries no key. | Each read dequeued is sent: the request carries exactly the dequeued reads. | not executed | BatchGet.InheritedTableNameDropsKey | BatchGet.RequestKeepsReads |
