/** Batch reads: the reads waiting to be sent are cut into BatchGetItem
    requests of at most 100 keys, grouped by table and carrying each table's
    read options, and the response of each request is turned into results,
    retries and backoff bookkeeping. */
module BatchGet {
  import opened Wrappers
  import opened AttributeValues
  import opened BatchTypes
  import JsRuntime

  /** The largest number of keys one BatchGetItem request may carry. */
  const MAX_READ_BATCH_SIZE: nat := 100

  /** A marshalled key or item. */
  type Item = AttributeMap

  /** A read waiting to be sent, or a result: a table name and a key or item. */
  type Read = (string, Item)

  /** The part of a request that is directed to one table. */
  datatype KeysAndAttributes = KeysAndAttributes(
    Keys: seq<Item>,
    ConsistentRead: Option<bool>,
    ProjectionExpression: Option<string>,
    ExpressionAttributeNames: Option<map<string, string>>)

  /** The `RequestItems` object of a request: its properties, one per table, in
      the order they were created. */
  type RequestItems = seq<(string, KeysAndAttributes)>

  /** The parts of a BatchGetItem response that are looked at. A missing
      `Responses` or `UnprocessedKeys` is None; an unprocessed entry whose
      `Keys` is missing has None as its key list. */
  datatype BatchGetResponse = BatchGetResponse(
    Responses: Option<seq<(string, seq<Item>)>>,
    UnprocessedKeys: Option<seq<(string, Option<seq<Item>>)>>)

  function Min(a: int, b: int): int { if a < b then a else b }

  function Max(a: int, b: int): int { if a < b then b else a }

  // ---------------------------------------------------------------------
  // Table options

  /** The state a table starts with: its own options when it has an entry in
      the per-table options, the default read consistency when that entry does
      not set one, and a backoff factor of zero. */
  function InitialTableState(tableName: string, consistentRead: Option<bool>,
                             perTable: map<string, TableOptions>): (s: TableState)
    ensures s.name == tableName && s.backoffFactor == 0
    ensures tableName in perTable && perTable[tableName].ConsistentRead.Some? ==>
              s.consistentRead == perTable[tableName].ConsistentRead
    ensures tableName !in perTable || perTable[tableName].ConsistentRead.None? ==>
              s.consistentRead == consistentRead
    ensures tableName in perTable ==>
              s.projection == perTable[tableName].ProjectionExpression &&
              s.attributeNames == perTable[tableName].ExpressionAttributeNames
    ensures tableName !in perTable ==> s.projection.None? && s.attributeNames.None?
  {
    var opts := if tableName in perTable then perTable[tableName] else TableOptions(None, None, None);
    TableState(
      attributeNames := opts.ExpressionAttributeNames,
      backoffFactor := 0,
      consistentRead := if opts.ConsistentRead.Some? then opts.ConsistentRead else consistentRead,
      name := tableName,
      projection := opts.ProjectionExpression)
  }

  // ---------------------------------------------------------------------
  // Building one request

  /** Every read names a table that has a state. */
  ghost predicate Known(q: seq<Read>, state: map<string, TableState>)
  {
    forall i :: 0 <= i < |q| ==> q[i].0 in state
  }

  /** The part of a request for table t, if there is one. */
  function IndexOfTable(request: RequestItems, t: string): (r: Option<nat>)
    ensures r.Some? ==> r.value < |request| && request[r.value].0 == t
    ensures r.None? <==> t !in PropertyNames(request)
  {
    if request == [] then None
    else if request[0].0 == t then Some(0)
    else match IndexOfTable(request[1..], t)
      case None => None
      case Some(j) => Some(j + 1)
  }

  /** A table's part of a request before any key is added to it. */
  function NewSegment(s: TableState): KeysAndAttributes
  {
    KeysAndAttributes([], s.consistentRead, s.projection, s.attributeNames)
  }

  /** One step of the request builder: the key joins its table's part, which
      is created, with the table's options, the first time the table is met. */
  function AddKey(request: RequestItems, read: Read, state: map<string, TableState>): (r: RequestItems)
    requires read.0 in state
    ensures PropertyNames(r) == if read.0 in PropertyNames(request) then PropertyNames(request)
                                else PropertyNames(request) + [read.0]
  {
    match IndexOfTable(request, read.0)
    case Some(j) => request[j := (read.0, request[j].1.(Keys := request[j].1.Keys + [read.1]))]
    case None => request + [(read.0, NewSegment(state[read.0]).(Keys := [read.1]))]
  }

  /** The request built from the reads q, taken in order. */
  function RequestFor(q: seq<Read>, state: map<string, TableState>): (r: RequestItems)
    requires Known(q, state)
    ensures |r| <= |q|
  {
    if q == [] then [] else AddKey(RequestFor(q[..|q| - 1], state), q[|q| - 1], state)
  }

  /** The tables of s, each once, in the order they first occur. */
  function FirstOccurrences(s: seq<string>): (r: seq<string>)
    ensures forall x :: x in r <==> x in s
    ensures JsRuntime.Distinct(r)
  {
    if s == [] then []
    else
      var p := FirstOccurrences(s[..|s| - 1]);
      if s[|s| - 1] in p then p else p + [s[|s| - 1]]
  }

  /** The keys or items of the pairs that belong to table t, in order. */
  function ItemsFor(pairs: seq<Read>, t: string): seq<Item>
  {
    if pairs == [] then []
    else
      var last := pairs[|pairs| - 1];
      ItemsFor(pairs[..|pairs| - 1], t) + (if last.0 == t then [last.1] else [])
  }

  /** The items of one table, each tagged with the table name. */
  function Tag(t: string, items: seq<Item>): (r: seq<Read>)
    ensures |r| == |items|
    ensures forall i :: 0 <= i < |items| ==> r[i] == (t, items[i])
  {
    if items == [] then [] else [(t, items[0])] + Tag(t, items[1..])
  }

  /** Every key of a request, tagged with its table, table by table. */
  function Flatten(request: RequestItems): seq<Read>
  {
    if request == [] then []
    else
      var last := request[|request| - 1];
      Flatten(request[..|request| - 1]) + Tag(last.0, last.1.Keys)
  }

  /** The number of keys a request carries. */
  function KeyCount(request: RequestItems): nat
  {
    |Flatten(request)|
  }

  lemma TagSnoc(t: string, items: seq<Item>, x: Item)
    ensures Tag(t, items + [x]) == Tag(t, items) + [(t, x)]
  {
    assert |Tag(t, items + [x])| == |Tag(t, items) + [(t, x)]|;
  }

  /** Replacing the keys of one part of a request changes its flattened keys
      by exactly the keys removed and added. */
  lemma {:induction false} FlattenUpdate(request: RequestItems, j: nat, seg: KeysAndAttributes)
    requires j < |request|
    ensures multiset(Flatten(request[j := (request[j].0, seg)])) + multiset(Tag(request[j].0, request[j].1.Keys))
         == multiset(Flatten(request)) + multiset(Tag(request[j].0, seg.Keys))
  {
    var u := request[j := (request[j].0, seg)];
    var n := |request| - 1;
    var removed, added := Tag(request[j].0, request[j].1.Keys), Tag(request[j].0, seg.Keys);
    if j < n {
      var last := Tag(request[n].0, request[n].1.Keys);
      assert u[..n] == request[..n][j := (request[j].0, seg)];
      FlattenUpdate(request[..n], j, seg);
      assert Flatten(u) == Flatten(u[..n]) + last;
      assert Flatten(request) == Flatten(request[..n]) + last;
      MultisetShift(multiset(Flatten(u[..n])), multiset(Flatten(request[..n])), multiset(last),
                    multiset(removed), multiset(added));
    } else {
      assert u[..n] == request[..n];
      assert Flatten(u) == Flatten(request[..n]) + added;
      assert Flatten(request) == Flatten(request[..n]) + removed;
    }
  }

  lemma MultisetShift<T>(a: multiset<T>, b: multiset<T>, c: multiset<T>, removed: multiset<T>, added: multiset<T>)
    requires a + removed == b + added
    ensures (a + c) + removed == (b + c) + added
  {
    assert forall x :: ((a + c) + removed)[x] == ((b + c) + added)[x] by {
      forall x ensures ((a + c) + removed)[x] == ((b + c) + added)[x] {
        assert (a + removed)[x] == (b + added)[x];
      }
    }
  }

  /** One step of the builder adds exactly its read to the request's keys. */
  lemma AddKeyAddsRead(request: RequestItems, read: Read, state: map<string, TableState>)
    requires read.0 in state
    ensures multiset(Flatten(AddKey(request, read, state))) == multiset(Flatten(request)) + multiset{read}
  {
    match IndexOfTable(request, read.0) {
      case Some(j) => PushAddsRead(request, j, read);
      case None => NewPartAddsRead(request, read, NewSegment(state[read.0]).(Keys := [read.1]));
    }
  }

  lemma PushAddsRead(request: RequestItems, j: nat, read: Read)
    requires j < |request| && request[j].0 == read.0
    ensures multiset(Flatten(request[j := (read.0, request[j].1.(Keys := request[j].1.Keys + [read.1]))]))
         == multiset(Flatten(request)) + multiset{read}
  {
    var keys := request[j].1.Keys;
    var r := request[j := (read.0, request[j].1.(Keys := keys + [read.1]))];
    FlattenUpdate(request, j, request[j].1.(Keys := keys + [read.1]));
    TagSnoc(read.0, keys, read.1);
    MultisetCancel(multiset(Flatten(r)), multiset(Flatten(request)) + multiset{read}, multiset(Tag(read.0, keys)));
  }

  lemma NewPartAddsRead(request: RequestItems, read: Read, seg: KeysAndAttributes)
    requires seg.Keys == [read.1]
    ensures Flatten(request + [(read.0, seg)]) == Flatten(request) + [read]
  {
    var r := request + [(read.0, seg)];
    assert r[..|request|] == request;
    assert Tag(read.0, [read.1]) == [read];
  }

  lemma MultisetCancel<T>(a: multiset<T>, b: multiset<T>, c: multiset<T>)
    requires a + c == b + c
    ensures a == b
  {
    assert forall x :: a[x] + c[x] == b[x] + c[x] by {
      forall x ensures a[x] + c[x] == b[x] + c[x] {
        assert (a + c)[x] == (b + c)[x];
      }
    }
  }

  lemma SnocMultiset(q: seq<Read>)
    requires q != []
    ensures multiset(q) == multiset(q[..|q| - 1]) + multiset{q[|q| - 1]}
  {
    assert q == q[..|q| - 1] + [q[|q| - 1]];
  }

  /** Every read given to the builder ends up in the request, under its own
      table, and nothing else does: no key is lost or duplicated. */
  lemma {:induction false} RequestKeepsReads(q: seq<Read>, state: map<string, TableState>)
    requires Known(q, state)
    ensures multiset(Flatten(RequestFor(q, state))) == multiset(q)
    ensures KeyCount(RequestFor(q, state)) == |q|
  {
    if q != [] {
      var p, x := q[..|q| - 1], q[|q| - 1];
      assert Known(p, state);
      RequestKeepsReads(p, state);
      assert RequestFor(q, state) == AddKey(RequestFor(p, state), x, state);
      AddKeyAddsRead(RequestFor(p, state), x, state);
      SnocMultiset(q);
    }
    assert |multiset(Flatten(RequestFor(q, state)))| == |q|;
  }

  /** Table t's part of a request holds t's options and exactly the keys read
      from t, in the order they were queued. */
  ghost predicate Holds(entry: (string, KeysAndAttributes), q: seq<Read>, state: map<string, TableState>)
  {
    entry.0 in state && entry.1 == NewSegment(state[entry.0]).(Keys := ItemsFor(q, entry.0))
  }

  /** A table that no pair names has no items among the pairs. */
  lemma {:induction false} ItemsForAbsent(pairs: seq<Read>, t: string)
    requires t !in PropertyNames(pairs)
    ensures ItemsFor(pairs, t) == []
  {
    if pairs != [] {
      var p := pairs[..|pairs| - 1];
      assert forall u :: u in PropertyNames(p) ==> u in PropertyNames(pairs);
      ItemsForAbsent(p, t);
    }
  }

  lemma TableNamesSnoc(q: seq<Read>)
    requires q != []
    ensures PropertyNames(q)[..|q| - 1] == PropertyNames(q[..|q| - 1])
  {
  }

  /** Every part of the request satisfies Holds. */
  ghost predicate AllHold(request: RequestItems, q: seq<Read>, state: map<string, TableState>)
  {
    forall i :: 0 <= i < |request| ==> Holds(request[i], q, state)
  }

  lemma ItemsForSnoc(q: seq<Read>, t: string)
    requires q != []
    ensures ItemsFor(q, t) == ItemsFor(q[..|q| - 1], t) + (if q[|q| - 1].0 == t then [q[|q| - 1].1] else [])
  {
  }

  lemma FirstOccurrencesSnoc(s: seq<string>)
    requires s != []
    ensures s[|s| - 1] in FirstOccurrences(s[..|s| - 1]) ==>
              FirstOccurrences(s) == FirstOccurrences(s[..|s| - 1])
    ensures s[|s| - 1] !in FirstOccurrences(s[..|s| - 1]) ==>
              FirstOccurrences(s) == FirstOccurrences(s[..|s| - 1]) + [s[|s| - 1]]
  {
  }

  /** A part whose table is not that of the last read is unaffected by it. */
  lemma HoldsAfterOtherRead(entry: (string, KeysAndAttributes), q: seq<Read>, state: map<string, TableState>)
    requires q != [] && entry.0 != q[|q| - 1].0 && Holds(entry, q[..|q| - 1], state)
    ensures Holds(entry, q, state)
  {
    ItemsForSnoc(q, entry.0);
  }

  /** The part of the last read's table gains its key at the end. */
  lemma HoldsAfterOwnRead(entry: (string, KeysAndAttributes), q: seq<Read>, state: map<string, TableState>)
    requires q != [] && entry.0 == q[|q| - 1].0 && Holds(entry, q[..|q| - 1], state)
    ensures Holds((entry.0, entry.1.(Keys := entry.1.Keys + [q[|q| - 1].1])), q, state)
  {
    ItemsForSnoc(q, entry.0);
  }

  /** Pushing a key onto an existing part keeps the parts' tables. */
  lemma PushKeepsTables(request: RequestItems, j: nat, seg: KeysAndAttributes)
    requires j < |request|
    ensures PropertyNames(request[j := (request[j].0, seg)]) == PropertyNames(request)
  {
  }

  /** The builder step for a table that already has a part. */
  lemma AddKeyToPart(request: RequestItems, q: seq<Read>, state: map<string, TableState>, j: nat)
    requires q != [] && Known(q, state)
    requires PropertyNames(request) == FirstOccurrences(PropertyNames(q[..|q| - 1]))
    requires AllHold(request, q[..|q| - 1], state)
    requires IndexOfTable(request, q[|q| - 1].0) == Some(j)
    ensures PropertyNames(AddKey(request, q[|q| - 1], state)) == FirstOccurrences(PropertyNames(q))
    ensures AllHold(AddKey(request, q[|q| - 1], state), q, state)
  {
    var x := q[|q| - 1];
    var r := request[j := (x.0, request[j].1.(Keys := request[j].1.Keys + [x.1]))];
    assert AddKey(request, x, state) == r;
    TableNamesSnoc(q);
    FirstOccurrencesSnoc(PropertyNames(q));
    assert x.0 in PropertyNames(request);
    PushKeepsTables(request, j, request[j].1.(Keys := request[j].1.Keys + [x.1]));
    PushKeepsParts(request, q, state, j);
  }

  lemma PushKeepsParts(request: RequestItems, q: seq<Read>, state: map<string, TableState>, j: nat)
    requires q != [] && j < |request| && request[j].0 == q[|q| - 1].0
    requires JsRuntime.Distinct(PropertyNames(request))
    requires AllHold(request, q[..|q| - 1], state)
    ensures AllHold(request[j := (request[j].0, request[j].1.(Keys := request[j].1.Keys + [q[|q| - 1].1]))], q, state)
  {
    var r := request[j := (request[j].0, request[j].1.(Keys := request[j].1.Keys + [q[|q| - 1].1]))];
    forall i | 0 <= i < |r| ensures Holds(r[i], q, state) {
      if i == j {
        HoldsAfterOwnRead(request[j], q, state);
      } else {
        assert PropertyNames(request)[i] != PropertyNames(request)[j];
        HoldsAfterOtherRead(request[i], q, state);
      }
    }
  }

  /** The builder step for a table met for the first time. */
  lemma AddKeyNewPart(request: RequestItems, q: seq<Read>, state: map<string, TableState>)
    requires q != [] && Known(q, state)
    requires PropertyNames(request) == FirstOccurrences(PropertyNames(q[..|q| - 1]))
    requires AllHold(request, q[..|q| - 1], state)
    requires IndexOfTable(request, q[|q| - 1].0).None?
    ensures PropertyNames(AddKey(request, q[|q| - 1], state)) == FirstOccurrences(PropertyNames(q))
    ensures AllHold(AddKey(request, q[|q| - 1], state), q, state)
  {
    var p, x := q[..|q| - 1], q[|q| - 1];
    var r := request + [(x.0, NewSegment(state[x.0]).(Keys := [x.1]))];
    assert AddKey(request, x, state) == r;
    TableNamesSnoc(q);
    FirstOccurrencesSnoc(PropertyNames(q));
    assert PropertyNames(r) == PropertyNames(request) + [x.0];
    assert x.0 !in PropertyNames(p);
    NewPartKeepsParts(request, q, state);
  }

  lemma NewPartKeepsParts(request: RequestItems, q: seq<Read>, state: map<string, TableState>)
    requires q != [] && q[|q| - 1].0 in state
    requires q[|q| - 1].0 !in PropertyNames(request) && q[|q| - 1].0 !in PropertyNames(q[..|q| - 1])
    requires AllHold(request, q[..|q| - 1], state)
    ensures AllHold(request + [(q[|q| - 1].0, NewSegment(state[q[|q| - 1].0]).(Keys := [q[|q| - 1].1]))], q, state)
  {
    var x := q[|q| - 1];
    var r := request + [(x.0, NewSegment(state[x.0]).(Keys := [x.1]))];
    forall i | 0 <= i < |r| ensures Holds(r[i], q, state) {
      if i < |request| {
        assert PropertyNames(request)[i] != x.0;
        HoldsAfterOtherRead(request[i], q, state);
      } else {
        ItemsForAbsent(q[..|q| - 1], x.0);
        ItemsForSnoc(q, x.0);
      }
    }
  }

  /** The request built from q has one part per table of q, in the order the
      tables first occur, and each part carries its table's options and all of
      that table's keys in queue order. */
  lemma {:induction false} RequestShape(q: seq<Read>, state: map<string, TableState>)
    requires Known(q, state)
    ensures PropertyNames(RequestFor(q, state)) == FirstOccurrences(PropertyNames(q))
    ensures AllHold(RequestFor(q, state), q, state)
  {
    if q != [] {
      var p := q[..|q| - 1];
      assert Known(p, state);
      RequestShape(p, state);
      match IndexOfTable(RequestFor(p, state), q[|q| - 1].0) {
        case Some(j) => AddKeyToPart(RequestFor(p, state), q, state, j);
        case None => AddKeyNewPart(RequestFor(p, state), q, state);
      }
    }
  }

  // ---------------------------------------------------------------------
  // Successive requests

  /** The requests that send all of q when nothing is throttled and nothing
      new is queued: each takes up to 100 of the reads that are left. */
  function Batches(q: seq<Read>, state: map<string, TableState>): (r: seq<RequestItems>)
    requires Known(q, state)
    ensures |r| == (|q| + MAX_READ_BATCH_SIZE - 1) / MAX_READ_BATCH_SIZE
    decreases |q|
  {
    if q == [] then []
    else
      var n := Min(|q|, MAX_READ_BATCH_SIZE);
      [RequestFor(q[..n], state)] + Batches(q[n..], state)
  }

  /** The first request takes the first reads, and the rest of the requests
      are those of the reads left over. */
  lemma BatchesStep(q: seq<Read>, state: map<string, TableState>)
    requires Known(q, state) && q != []
    ensures var n := Min(|q|, MAX_READ_BATCH_SIZE);
      Known(q[..n], state) && Known(q[n..], state) &&
      Batches(q, state)[0] == RequestFor(q[..n], state) &&
      Batches(q[n..], state) == Batches(q, state)[1..]
  {
  }

  /** The reads that request i takes when nothing is throttled. */
  function Chunk(q: seq<Read>, i: nat): (c: seq<Read>)
    requires MAX_READ_BATCH_SIZE * i < |q|
    ensures 1 <= |c| <= MAX_READ_BATCH_SIZE
  {
    q[MAX_READ_BATCH_SIZE * i..Min(|q|, MAX_READ_BATCH_SIZE * i + MAX_READ_BATCH_SIZE)]
  }

  lemma ChunkOfRest(q: seq<Read>, i: nat)
    requires MAX_READ_BATCH_SIZE < |q| && 0 < i && MAX_READ_BATCH_SIZE * i < |q|
    ensures Chunk(q, i) == Chunk(q[MAX_READ_BATCH_SIZE..], i - 1)
  {
    var a := MAX_READ_BATCH_SIZE * i;
    assert MAX_READ_BATCH_SIZE * (i - 1) == a - MAX_READ_BATCH_SIZE;
    var hi := Min(|q|, a + MAX_READ_BATCH_SIZE);
    assert Min(|q| - MAX_READ_BATCH_SIZE, a) == hi - MAX_READ_BATCH_SIZE;
    assert Chunk(q[MAX_READ_BATCH_SIZE..], i - 1) == q[MAX_READ_BATCH_SIZE..][a - MAX_READ_BATCH_SIZE..hi - MAX_READ_BATCH_SIZE];
    SliceOfSlice(q, MAX_READ_BATCH_SIZE, a - MAX_READ_BATCH_SIZE, hi - MAX_READ_BATCH_SIZE);
  }

  lemma SliceOfSlice<T>(s: seq<T>, d: nat, lo: nat, hi: nat)
    requires d + lo <= d + hi <= |s|
    ensures s[d..][lo..hi] == s[d + lo..d + hi]
  {
    assert forall k :: 0 <= k < hi - lo ==> s[d..][lo..hi][k] == s[d + lo + k];
  }

  lemma ChunkKnown(q: seq<Read>, state: map<string, TableState>, i: nat)
    requires Known(q, state) && MAX_READ_BATCH_SIZE * i < |q|
    ensures Known(Chunk(q, i), state)
  {
  }

  lemma {:induction false} BatchAt(q: seq<Read>, state: map<string, TableState>, i: nat)
    requires Known(q, state) && i < |Batches(q, state)|
    ensures MAX_READ_BATCH_SIZE * i < |q| && Known(Chunk(q, i), state)
    ensures Batches(q, state)[i] == RequestFor(Chunk(q, i), state)
    decreases i
  {
    BatchIndexBound(|q|, i);
    ChunkKnown(q, state, i);
    if i == 0 {
      FirstBatch(q, state);
    } else {
      LaterBatch(q, state, i);
      BatchAt(q[MAX_READ_BATCH_SIZE..], state, i - 1);
      LaterChunk(q, state, i);
    }
  }

  /** Request i > 0 is built from chunk i, given that request i - 1 of the
      reads after the first 100 is built from their chunk i - 1. */
  lemma LaterChunk(q: seq<Read>, state: map<string, TableState>, i: nat)
    requires MAX_READ_BATCH_SIZE < |q| && 0 < i && MAX_READ_BATCH_SIZE * i < |q|
    requires Known(q[MAX_READ_BATCH_SIZE..], state) && i - 1 < |Batches(q[MAX_READ_BATCH_SIZE..], state)|
    requires Known(q, state) && i < |Batches(q, state)|
    requires Batches(q, state)[i] == Batches(q[MAX_READ_BATCH_SIZE..], state)[i - 1]
    requires Known(Chunk(q[MAX_READ_BATCH_SIZE..], i - 1), state)
    requires Batches(q[MAX_READ_BATCH_SIZE..], state)[i - 1]
          == RequestFor(Chunk(q[MAX_READ_BATCH_SIZE..], i - 1), state)
    ensures Known(Chunk(q, i), state)
    ensures Batches(q, state)[i] == RequestFor(Chunk(q, i), state)
  {
    ChunkOfRest(q, i);
  }

  /** Request 0 of q is the one for its first 100 reads. */
  lemma FirstBatch(q: seq<Read>, state: map<string, TableState>)
    requires Known(q, state) && q != []
    ensures Known(Chunk(q, 0), state)
    ensures Batches(q, state)[0] == RequestFor(Chunk(q, 0), state)
  {
    BatchesStep(q, state);
    assert Chunk(q, 0) == q[..Min(|q|, MAX_READ_BATCH_SIZE)];
  }

  /** Request i > 0 of q is request i - 1 of the reads after the first 100. */
  lemma LaterBatch(q: seq<Read>, state: map<string, TableState>, i: nat)
    requires Known(q, state) && 0 < i < |Batches(q, state)|
    ensures MAX_READ_BATCH_SIZE < |q| && Known(q[MAX_READ_BATCH_SIZE..], state)
    ensures i - 1 < |Batches(q[MAX_READ_BATCH_SIZE..], state)|
    ensures Batches(q, state)[i] == Batches(q[MAX_READ_BATCH_SIZE..], state)[i - 1]
  {
    BatchIndexBound(|q|, i);
    BatchesStep(q, state);
  }

  /** Request i exists only when some read is at position 100 i or later. */
  lemma BatchIndexBound(len: nat, i: nat)
    requires i < (len + MAX_READ_BATCH_SIZE - 1) / MAX_READ_BATCH_SIZE
    ensures MAX_READ_BATCH_SIZE * i < len
    ensures 0 < i ==> MAX_READ_BATCH_SIZE < len
  {
  }

  /** Request i of the reads q carries the reads from position 100 i on, and
      between 1 and 100 keys. */
  lemma BatchesPartition(q: seq<Read>, state: map<string, TableState>)
    requires Known(q, state)
    ensures forall i: nat :: i < |Batches(q, state)| ==>
              MAX_READ_BATCH_SIZE * i < |q| && Known(Chunk(q, i), state) &&
              Batches(q, state)[i] == RequestFor(Chunk(q, i), state)
    ensures forall i :: 0 <= i < |Batches(q, state)| ==> 1 <= KeyCount(Batches(q, state)[i]) <= MAX_READ_BATCH_SIZE
  {
    forall i: nat | i < |Batches(q, state)|
      ensures MAX_READ_BATCH_SIZE * i < |q| && Known(Chunk(q, i), state)
      ensures Batches(q, state)[i] == RequestFor(Chunk(q, i), state)
      ensures 1 <= KeyCount(Batches(q, state)[i]) <= MAX_READ_BATCH_SIZE
    {
      BatchAt(q, state, i);
      RequestKeepsReads(Chunk(q, i), state);
    }
  }

  /** A queue of 325 reads is sent as four requests, the last with 25 keys. */
  lemma ThreeHundredTwentyFiveReads(q: seq<Read>, state: map<string, TableState>)
    requires Known(q, state) && |q| == 325
    ensures |Batches(q, state)| == 4
    ensures KeyCount(Batches(q, state)[3]) == 25
  {
    BatchesPartition(q, state);
    RequestKeepsReads(Chunk(q, 3), state);
  }

  // ---------------------------------------------------------------------
  // The builder as written, with inherited property names

  /** The names that every plain JavaScript object inherits from
      `Object.prototype`; looking one of them up on `{}` does not give
      `undefined`. */
  const InheritedNames: set<string> := {
    "__proto__", "__defineGetter__", "__defineSetter__", "__lookupGetter__",
    "__lookupSetter__", "constructor", "hasOwnProperty", "isPrototypeOf",
    "propertyIsEnumerable", "toLocaleString", "toString", "valueOf"}

  /** The builder step as the code is written: the test for a missing part
      also sees inherited members, so no part is ever made for a table named
      like one of them, and the optional-chained push then does nothing. */
  function AddKeyAsWritten(request: RequestItems, read: Read, state: map<string, TableState>): (r: RequestItems)
    requires read.0 in state
    ensures read.0 !in InheritedNames ==> r == AddKey(request, read, state)
    ensures read.0 in InheritedNames && read.0 !in PropertyNames(request) ==> r == request
  {
    match IndexOfTable(request, read.0)
    case Some(j) => request[j := (read.0, request[j].1.(Keys := request[j].1.Keys + [read.1]))]
    case None =>
      if read.0 in InheritedNames then request
      else request + [(read.0, NewSegment(state[read.0]).(Keys := [read.1]))]
  }

  function RequestForAsWritten(q: seq<Read>, state: map<string, TableState>): RequestItems
    requires Known(q, state)
  {
    if q == [] then [] else AddKeyAsWritten(RequestForAsWritten(q[..|q| - 1], state), q[|q| - 1], state)
  }

  /** For tables with ordinary names the code as written builds the same
      request as the corrected builder. */
  lemma {:induction false} AsWrittenAgrees(q: seq<Read>, state: map<string, TableState>)
    requires Known(q, state)
    requires forall i :: 0 <= i < |q| ==> q[i].0 !in InheritedNames
    ensures RequestForAsWritten(q, state) == RequestFor(q, state)
  {
    if q != [] {
      var p := q[..|q| - 1];
      assert Known(p, state);
      AsWrittenAgrees(p, state);
    }
  }

  /** A read from a table called "constructor" is taken off the queue but the
      request as written carries no key at all; the corrected builder sends
      it. */
  lemma InheritedTableNameDropsKey(key: Item)
    ensures var state := map["constructor" := InitialTableState("constructor", None, map[])];
            KeyCount(RequestForAsWritten([("constructor", key)], state)) == 0 &&
            KeyCount(RequestFor([("constructor", key)], state)) == 1
  {
    var state := map["constructor" := InitialTableState("constructor", None, map[])];
    var q := [("constructor", key)];
    assert q[..0] == [];
    RequestKeepsReads(q, state);
  }

  // ---------------------------------------------------------------------
  // Handling a response

  /** A call from the batch read into the generic batch engine. */
  datatype EngineCall =
    | HandleThrottledCall(tableName: string, unprocessed: seq<Item>)
    | MovePendingToThrottledCall(tables: set<string>)

  /** The `handleThrottled` calls made for the unprocessed entries u, in
      order: one for every entry that has a key list, even an empty one. */
  function ThrottledCalls(u: seq<(string, Option<seq<Item>>)>): (r: seq<EngineCall>)
    ensures |r| <= |u|
  {
    if u == [] then []
    else
      var last := u[|u| - 1];
      ThrottledCalls(u[..|u| - 1]) +
      (if last.1.Some? then [HandleThrottledCall(last.0, last.1.value)] else [])
  }

  /** The tables of the unprocessed entries that have a key list. */
  function ThrottledTables(u: seq<(string, Option<seq<Item>>)>): set<string>
  {
    set i | 0 <= i < |u| && u[i].1.Some? :: u[i].0
  }

  /** `handleThrottled` is called for a table and a key list exactly when the
      response lists those keys as unprocessed for that table. */
  lemma {:induction false} ThrottledCallsExact(u: seq<(string, Option<seq<Item>>)>, t: string, keys: seq<Item>)
    ensures HandleThrottledCall(t, keys) in ThrottledCalls(u) <==> (t, Some(keys)) in u
  {
    if u != [] {
      var p := u[..|u| - 1];
      ThrottledCallsExact(p, t, keys);
      assert u == p + [u[|u| - 1]];
    }
  }

  /** The tables handed to `movePendingToThrottled` are exactly those that got
      a `handleThrottled` call, and each got one with its own keys. */
  lemma ThrottledTablesAreCalled(u: seq<(string, Option<seq<Item>>)>, t: string)
    ensures t in ThrottledTables(u) ==> HandleThrottledCall(t, GetThrottledKeys(u, t)) in ThrottledCalls(u)
    ensures t in ThrottledTables(u) <==> exists keys :: HandleThrottledCall(t, keys) in ThrottledCalls(u)
  {
    if t in ThrottledTables(u) {
      ThrottledCallsExact(u, t, GetThrottledKeys(u, t));
    }
    forall keys | HandleThrottledCall(t, keys) in ThrottledCalls(u) ensures t in ThrottledTables(u) {
      ThrottledCallsExact(u, t, keys);
      var i :| 0 <= i < |u| && u[i] == (t, Some(keys));
    }
  }

  /** The key list of some unprocessed entry of table t. */
  function GetThrottledKeys(u: seq<(string, Option<seq<Item>>)>, t: string): (keys: seq<Item>)
    ensures t in ThrottledTables(u) ==> (t, Some(keys)) in u
  {
    if u == [] then []
    else if u[0].0 == t && u[0].1.Some? then u[0].1.value
    else
      assert t in ThrottledTables(u) && !(u[0].0 == t && u[0].1.Some?) ==> t in ThrottledTables(u[1..]) by {
        if t in ThrottledTables(u) && !(u[0].0 == t && u[0].1.Some?) {
          var i :| 0 <= i < |u| && u[i].1.Some? && u[i].0 == t;
          assert u[1..][i - 1] == u[i];
        }
      }
      GetThrottledKeys(u[1..], t)
  }

  /** The results of a response: every returned item tagged with its table,
      table by table in the order of the response. */
  function Tagged(responses: seq<(string, seq<Item>)>): (r: seq<Read>)
    ensures forall i :: 0 <= i < |r| ==> r[i].0 in ResponseTables(responses)
  {
    if responses == [] then []
    else
      var last := responses[|responses| - 1];
      Tagged(responses[..|responses| - 1]) + Tag(last.0, last.1)
  }

  /** The tables that returned items. */
  function ResponseTables(responses: seq<(string, seq<Item>)>): set<string>
  {
    set i | 0 <= i < |responses| :: responses[i].0
  }

  /** A JavaScript object has each property once. */
  ghost predicate UniqueTables(responses: seq<(string, seq<Item>)>)
  {
    forall i, j :: 0 <= i < j < |responses| ==> responses[i].0 != responses[j].0
  }

  lemma {:induction false} ItemsForAppend(a: seq<Read>, b: seq<Read>, t: string)
    ensures ItemsFor(a + b, t) == ItemsFor(a, t) + ItemsFor(b, t)
  {
    if b != [] {
      var b' := b[..|b| - 1];
      assert (a + b)[..|a + b| - 1] == a + b';
      ItemsForAppend(a, b', t);
    } else {
      assert a + b == a;
    }
  }

  lemma {:induction false} ItemsForTag(u: string, items: seq<Item>, t: string)
    ensures ItemsFor(Tag(u, items), t) == if u == t then items else []
  {
    if items != [] {
      var n := |items| - 1;
      var r := Tag(u, items);
      ItemsForSnoc(r, t);
      TagPrefix(u, items, n);
      ItemsForTag(u, items[..n], t);
      if u == t {
        LastOnto(items);
      }
    }
  }

  lemma TagPrefix(u: string, items: seq<Item>, n: nat)
    requires n <= |items|
    ensures Tag(u, items)[..n] == Tag(u, items[..n])
  {
  }

  lemma LastOnto<T>(s: seq<T>)
    requires s != []
    ensures s[..|s| - 1] + [s[|s| - 1]] == s
  {
  }

  /** The results tagged with table t are the items the response returned for
      t, in order, and there are none for a table that returned nothing. */
  lemma TaggedByTable(responses: seq<(string, seq<Item>)>, t: string)
    requires UniqueTables(responses)
    ensures forall i :: 0 <= i < |responses| && responses[i].0 == t ==> ItemsFor(Tagged(responses), t) == responses[i].1
    ensures t !in ResponseTables(responses) ==> ItemsFor(Tagged(responses), t) == []
  {
    forall i | 0 <= i < |responses| && responses[i].0 == t
      ensures ItemsFor(Tagged(responses), t) == responses[i].1
    {
      TaggedAt(responses, t, i);
    }
    if t !in ResponseTables(responses) {
      TaggedAbsent(responses, t);
    }
  }

  lemma {:induction false} TaggedAbsent(responses: seq<(string, seq<Item>)>, t: string)
    requires t !in ResponseTables(responses)
    ensures ItemsFor(Tagged(responses), t) == []
  {
    if responses != [] {
      var n := |responses| - 1;
      ResponseTablesSnoc(responses);
      TaggedAbsent(responses[..n], t);
      TaggedLast(responses, t);
    }
  }

  lemma {:induction false} TaggedAt(responses: seq<(string, seq<Item>)>, t: string, i: nat)
    requires UniqueTables(responses)
    requires i < |responses| && responses[i].0 == t
    ensures ItemsFor(Tagged(responses), t) == responses[i].1
  {
    var n := |responses| - 1;
    TaggedLast(responses, t);
    UniqueSnoc(responses);
    if i == n {
      TaggedAbsent(responses[..n], t);
    } else {
      assert responses[n].0 != t;
      assert responses[..n][i] == responses[i];
      TaggedAt(responses[..n], t, i);
    }
  }

  /** Without its last table a response still names each table once, and
      none of them is the last one. */
  lemma UniqueSnoc(responses: seq<(string, seq<Item>)>)
    requires UniqueTables(responses) && responses != []
    ensures var n := |responses| - 1;
      UniqueTables(responses[..n]) && responses[n].0 !in ResponseTables(responses[..n])
  {
    var n := |responses| - 1;
    var p := responses[..n];
    forall u | u in ResponseTables(p) ensures u != responses[n].0 {
      var k :| 0 <= k < n && p[k].0 == u;
      assert responses[k].0 == u;
    }
  }

  /** The items tagged with t gain those of the last table when it is t. */
  lemma TaggedLast(responses: seq<(string, seq<Item>)>, t: string)
    requires responses != []
    ensures var n := |responses| - 1;
      ItemsFor(Tagged(responses), t)
      == ItemsFor(Tagged(responses[..n]), t) + (if responses[n].0 == t then responses[n].1 else [])
  {
    var n := |responses| - 1;
    ItemsForAppend(Tagged(responses[..n]), Tag(responses[n].0, responses[n].1), t);
    ItemsForTag(responses[n].0, responses[n].1, t);
  }

  lemma ResponseTablesSnoc(responses: seq<(string, seq<Item>)>)
    requires responses != []
    ensures var n := |responses| - 1;
      ResponseTables(responses) == ResponseTables(responses[..n]) + {responses[n].0}
  {
    var n := |responses| - 1;
    forall t | t in ResponseTables(responses) ensures t in ResponseTables(responses[..n]) + {responses[n].0} {
      var k :| 0 <= k < |responses| && responses[k].0 == t;
      if k < n {
        assert responses[..n][k].0 == t;
      }
    }
    forall t | t in ResponseTables(responses[..n]) ensures t in ResponseTables(responses) {
      var k :| 0 <= k < n && responses[..n][k].0 == t;
      assert responses[k].0 == t;
    }
  }

  /** A success for a table lowers its backoff factor by one, never below
      zero, and changes nothing else. */
  function AfterSuccess(s: TableState): (r: TableState)
    ensures r.backoffFactor >= 0
    ensures s.backoffFactor >= 1 ==> r.backoffFactor == s.backoffFactor - 1
    ensures s.backoffFactor <= 1 ==> r.backoffFactor == 0
    ensures r.(backoffFactor := s.backoffFactor) == s
  {
    s.(backoffFactor := Max(0, s.backoffFactor - 1))
  }

  /** The table states after one success for each of the given tables. */
  function Succeeded(state: map<string, TableState>, tables: set<string>): (r: map<string, TableState>)
    ensures r.Keys == state.Keys
    ensures forall t :: t in tables && t in state ==> r[t] == AfterSuccess(state[t])
    ensures forall t :: t !in tables && t in state ==> r[t] == state[t]
  {
    map t | t in state :: if t in tables then AfterSuccess(state[t]) else state[t]
  }

  // ---------------------------------------------------------------------
  // The batch read

  /** Every table of the response that returned items has a state. */
  ghost predicate ResponseKnown(responses: seq<(string, seq<Item>)>, state: map<string, TableState>)
  {
    forall i :: 0 <= i < |responses| ==> responses[i].0 in state
  }

  /** Every stored table state holds the options resolved for its table and a
      backoff factor that is never negative. */
  ghost predicate Configured(state: map<string, TableState>, consistentRead: Option<bool>,
                             options: map<string, TableOptions>)
  {
    forall t :: t in state ==>
      state[t].backoffFactor >= 0 &&
      state[t] == InitialTableState(t, consistentRead, options).(backoffFactor := state[t].backoffFactor)
  }

  /** Successes change backoff factors only, and keep them non-negative. */
  lemma SucceededKeepsConfigured(state: map<string, TableState>, tables: set<string>,
                                 consistentRead: Option<bool>, options: map<string, TableOptions>,
                                 q: seq<Read>)
    requires Configured(state, consistentRead, options) && Known(q, state)
    ensures Configured(Succeeded(state, tables), consistentRead, options)
    ensures Known(q, Succeeded(state, tables))
  {
  }

  /** The reads of q whose table is not among the given ones, in order. */
  function Unthrottled(q: seq<Read>, tables: set<string>): (r: seq<Read>)
    ensures forall x :: x in r <==> x in q && x.0 !in tables
  {
    if q == [] then []
    else
      assert forall x :: x in q <==> x == q[0] || x in q[1..];
      (if q[0].0 in tables then [] else [q[0]]) + Unthrottled(q[1..], tables)
  }

  /** Reads taken from reads of known tables are of known tables. */
  lemma KnownSubset(q: seq<Read>, p: seq<Read>, state: map<string, TableState>)
    requires Known(q, state)
    requires forall x :: x in p ==> x in q
    ensures Known(p, state)
  {
    forall i | 0 <= i < |p| ensures p[i].0 in state {
      assert p[i] in q;
      var k :| 0 <= k < |q| && q[k] == p[i];
    }
  }

  /** A batch read in progress: the reads waiting to be sent, the state of
      each table met so far, and the results waiting to be handed out. The
      calls made into the generic engine are kept as a log. */
  class BatchGet {
    const batchSize: nat
    const consistentRead: Option<bool>
    const options: map<string, TableOptions>

    var toSend: seq<Read>
    var state: map<string, TableState>
    var pending: seq<Read>
    var engineCalls: seq<EngineCall>

    ghost predicate Valid()
      reads this
    {
      && batchSize == MAX_READ_BATCH_SIZE
      && Known(toSend, state)
      && Configured(state, consistentRead, options)
    }

    constructor (opts: BatchGetOptions)
      ensures Valid()
      ensures consistentRead == opts.ConsistentRead
      ensures options == opts.PerTableOptions.GetOr(map[])
      ensures toSend == [] && state == map[] && pending == [] && engineCalls == []
    {
      batchSize := MAX_READ_BATCH_SIZE;
      consistentRead := opts.ConsistentRead;
      options := opts.PerTableOptions.GetOr(map[]);
      toSend := [];
      state := map[];
      pending := [];
      engineCalls := [];
    }

    /** A read taken from the source by the engine: it joins the queue, and a
        table met for the first time gets its initial state. */
    method Enqueue(tableName: string, key: Item)
      requires Valid()
      modifies this`toSend, this`state
      ensures Valid()
      ensures toSend == old(toSend) + [(tableName, key)]
      ensures state == if tableName in old(state) then old(state)
                       else old(state)[tableName := InitialTableState(tableName, consistentRead, options)]
    {
      if tableName !in state {
        state := state[tableName := InitialTableState(tableName, consistentRead, options)];
      }
      toSend := toSend + [(tableName, key)];
    }

    /** Adds one key to the request: the table's part is created, with the
        table's options and no keys, when the request has none yet, and the
        key is pushed onto it. */
    method AddToRequest(request: RequestItems, tableName: string, item: Item) returns (r: RequestItems)
      requires tableName in state
      ensures r == AddKey(request, (tableName, item), state)
    {
      r := request;
      var j: nat;
      match IndexOfTable(r, tableName) {
        case None =>
          // the part is created with no keys; looking it up again finds it last
          r := r + [(tableName, NewSegment(state[tableName]))];
          j := |r| - 1;
        case Some(k) =>
          j := k;
      }
      ghost var found := r;
      r := r[j := (tableName, r[j].1.(Keys := r[j].1.Keys + [item]))];
      PushStep(request, (tableName, item), state, found, j, r);
    }

    /** Takes up to `batchSize` reads off the front of the queue and builds
        the request for them. */
    method BuildRequest() returns (request: RequestItems)
      requires Valid()
      modifies this`toSend
      ensures Valid()
      ensures var n := Min(|old(toSend)|, MAX_READ_BATCH_SIZE);
              toSend == old(toSend)[n..] && Known(old(toSend)[..n], state) &&
              request == RequestFor(old(toSend)[..n], state)
      ensures old(toSend) != [] ==>
                request == Batches(old(toSend), state)[0] &&
                Batches(toSend, state) == Batches(old(toSend), state)[1..]
    {
      ghost var q := toSend;
      request := [];
      var count := 0;
      while |toSend| > 0
        invariant 0 <= count < batchSize && count <= |q|
        invariant toSend == q[count..]
        invariant Known(q[..count], state)
        invariant request == RequestFor(q[..count], state)
        decreases |toSend|
      {
        var (tableName, item) := toSend[0];
        assert (tableName, item) == q[count];
        toSend := toSend[1..];
        request := AddToRequest(request, tableName, item);
        RequestForStep(q, count, state);
        count := count + 1;
        if count == batchSize {
          break;
        }
      }
      FrontTaken(q, count, state);
    }

    /** The `handleThrottled` hook of the generic engine, whose code is not
        part of this model. Its contract says only what the batch read relies
        on: the call is logged, no table state is added or removed, no read
        joins the queue, and the invariant holds. The body is one behaviour
        the contract admits: the table's backoff factor goes up by one. */
    method HandleThrottled(tableName: string, unprocessed: seq<Item>)
      requires Valid()
      modifies this`toSend, this`state, this`engineCalls
      ensures Valid()
      ensures engineCalls == old(engineCalls) + [HandleThrottledCall(tableName, unprocessed)]
      ensures state.Keys == old(state).Keys
      ensures forall r :: r in toSend ==> r in old(toSend)
    {
      if tableName in state {
        var tableData := state[tableName];
        state := state[tableName := tableData.(backoffFactor := tableData.backoffFactor + 1)];
      }
      engineCalls := engineCalls + [HandleThrottledCall(tableName, unprocessed)];
    }

    /** The `movePendingToThrottled` hook of the generic engine, whose code is
        not part of this model. Its contract is that of `HandleThrottled`. The
        body is one behaviour the contract admits: the queued reads of the
        throttled tables leave the queue. */
    method MovePendingToThrottled(tables: set<string>)
      requires Valid()
      modifies this`toSend, this`state, this`engineCalls
      ensures Valid()
      ensures engineCalls == old(engineCalls) + [MovePendingToThrottledCall(tables)]
      ensures state.Keys == old(state).Keys
      ensures forall r :: r in toSend ==> r in old(toSend)
    {
      KnownSubset(toSend, Unthrottled(toSend, tables), state);
      toSend := Unthrottled(toSend, tables);
      engineCalls := engineCalls + [MovePendingToThrottledCall(tables)];
    }

    /** The first half of handling a response: every unprocessed key list,
        even an empty one, goes to `handleThrottled`, and then the set of
        those tables to `movePendingToThrottled`. */
    method HandleUnprocessed(unprocessedKeys: seq<(string, Option<seq<Item>>)>)
      requires Valid()
      modifies this`toSend, this`state, this`engineCalls
      ensures Valid()
      ensures engineCalls == old(engineCalls) + ThrottledCalls(unprocessedKeys)
                             + [MovePendingToThrottledCall(ThrottledTables(unprocessedKeys))]
      ensures state.Keys == old(state).Keys
      ensures forall r :: r in toSend ==> r in old(toSend)
    {
      var unprocessedTables: set<string> := {};
      var i := 0;
      while i < |unprocessedKeys|
        invariant 0 <= i <= |unprocessedKeys|
        invariant Valid()
        invariant unprocessedTables == ThrottledTables(unprocessedKeys[..i])
        invariant engineCalls == old(engineCalls) + ThrottledCalls(unprocessedKeys[..i])
        invariant state.Keys == old(state).Keys
        invariant forall r :: r in toSend ==> r in old(toSend)
      {
        var (table, keys) := unprocessedKeys[i];
        ThrottledStep(unprocessedKeys, i);
        if keys.Some? {
          unprocessedTables := unprocessedTables + {table};
          HandleThrottled(table, keys.value);
        }
        i := i + 1;
      }
      assert unprocessedKeys[..i] == unprocessedKeys;
      MovePendingToThrottled(unprocessedTables);
    }

    /** Appends the items one table returned to the results, each tagged
        with the table. */
    method PushResults(table: string, items: seq<Item>)
      modifies this`pending
      ensures pending == old(pending) + Tag(table, items)
    {
      var k := 0;
      while k < |items|
        invariant 0 <= k <= |items|
        invariant pending == old(pending) + Tag(table, items[..k])
      {
        pending := pending + [(table, items[k])];
        TagSnoc(table, items[..k], items[k]);
        assert items[..k + 1] == items[..k] + [items[k]];
        ConcatAssoc(old(pending), Tag(table, items[..k]), [(table, items[k])]);
        k := k + 1;
      }
      assert items[..k] == items;
    }

    /** The second half of handling a response: every table that returned
        items has its backoff factor lowered, and its items join the results,
        tagged with the table. */
    method RecordResults(responses: seq<(string, seq<Item>)>)
      requires ResponseKnown(responses, state) && UniqueTables(responses)
      modifies this`state, this`pending
      ensures state == Succeeded(old(state), ResponseTables(responses))
      ensures pending == old(pending) + Tagged(responses)
    {
      var j := 0;
      while j < |responses|
        invariant 0 <= j <= |responses|
        invariant state == Succeeded(old(state), ResponseTables(responses[..j]))
        invariant pending == old(pending) + Tagged(responses[..j])
      {
        var (table, items) := responses[j];
        var tableData := state[table];
        state := state[table := tableData.(backoffFactor := Max(0, tableData.backoffFactor - 1))];
        PushResults(table, items);
        ConcatAssoc(old(pending), Tagged(responses[..j]), Tag(table, items));
        TaggedStep(responses, j);
        SucceededStep(old(state), responses, j);
        j := j + 1;
      }
      assert responses[..j] == responses;
    }

    /** Handles the response to a request: the unprocessed keys first, then
        the returned items. A missing `Responses` or `UnprocessedKeys` counts
        as empty. The successes are counted on the table states the engine's
        hooks leave behind, `afterHooks`. */
    method HandleResponse(response: BatchGetResponse) returns (ghost afterHooks: map<string, TableState>)
      requires Valid()
      requires ResponseKnown(response.Responses.GetOr([]), state)
      requires UniqueTables(response.Responses.GetOr([]))
      modifies this`toSend, this`state, this`pending, this`engineCalls
      ensures Valid()
      ensures engineCalls == old(engineCalls) + ThrottledCalls(response.UnprocessedKeys.GetOr([]))
                             + [MovePendingToThrottledCall(ThrottledTables(response.UnprocessedKeys.GetOr([])))]
      ensures afterHooks.Keys == old(state).Keys && Configured(afterHooks, consistentRead, options)
      ensures state == Succeeded(afterHooks, ResponseTables(response.Responses.GetOr([])))
      ensures pending == old(pending) + Tagged(response.Responses.GetOr([]))
      ensures forall r :: r in toSend ==> r in old(toSend)
    {
      var responses := response.Responses.GetOr([]);
      var unprocessedKeys := response.UnprocessedKeys.GetOr([]);
      HandleUnprocessed(unprocessedKeys);
      afterHooks := state;
      RecordResults(responses);
      SucceededKeepsConfigured(afterHooks, ResponseTables(responses), consistentRead, options, toSend);
    }

    /** One round of the batch read: builds the request for the front of the
        queue and handles the response the table service gave to it. */
    method DoBatchRequest(response: BatchGetResponse) returns (request: RequestItems, ghost afterHooks: map<string, TableState>)
      requires Valid()
      requires ResponseKnown(response.Responses.GetOr([]), state)
      requires UniqueTables(response.Responses.GetOr([]))
      modifies this`toSend, this`state, this`pending, this`engineCalls
      ensures Valid()
      ensures var n := Min(|old(toSend)|, MAX_READ_BATCH_SIZE);
              Known(old(toSend)[..n], old(state)) &&
              request == RequestFor(old(toSend)[..n], old(state)) &&
              forall r :: r in toSend ==> r in old(toSend)[n..]
      ensures engineCalls == old(engineCalls) + ThrottledCalls(response.UnprocessedKeys.GetOr([]))
                             + [MovePendingToThrottledCall(ThrottledTables(response.UnprocessedKeys.GetOr([])))]
      ensures afterHooks.Keys == old(state).Keys && Configured(afterHooks, consistentRead, options)
      ensures state == Succeeded(afterHooks, ResponseTables(response.Responses.GetOr([])))
      ensures pending == old(pending) + Tagged(response.Responses.GetOr([]))
    {
      request := BuildRequest();
      afterHooks := HandleResponse(response);
    }
  }

  /** When the builder stops, having taken count reads because the queue ran
      out or the request is full, it has taken the first request's reads. */
  lemma FrontTaken(q: seq<Read>, count: nat, state: map<string, TableState>)
    requires Known(q, state) && count <= |q| && count <= MAX_READ_BATCH_SIZE
    requires count == |q| || count == MAX_READ_BATCH_SIZE
    ensures Min(|q|, MAX_READ_BATCH_SIZE) == count
    ensures Known(q[..count], state) && Known(q[count..], state)
    ensures q != [] ==> RequestFor(q[..count], state) == Batches(q, state)[0] &&
                        Batches(q[count..], state) == Batches(q, state)[1..]
  {
    if q != [] {
      BatchesStep(q, state);
    } else {
      assert q[count..] == [];
    }
  }

  /** The request for the first k + 1 reads is one builder step after the
      request for the first k. */
  lemma RequestForStep(q: seq<Read>, k: nat, state: map<string, TableState>)
    requires k < |q| && Known(q[..k], state) && q[k].0 in state
    ensures Known(q[..k + 1], state)
    ensures RequestFor(q[..k + 1], state) == AddKey(RequestFor(q[..k], state), q[k], state)
  {
    assert q[..k + 1][..k] == q[..k];
  }

  /** The state after the successes of the first j + 1 tables of a response. */
  lemma SucceededStep(state: map<string, TableState>, responses: seq<(string, seq<Item>)>, j: nat)
    requires j < |responses| && UniqueTables(responses) && ResponseKnown(responses, state)
    ensures var s := Succeeded(state, ResponseTables(responses[..j]));
            var t := responses[j].0;
            s[t := AfterSuccess(s[t])] == Succeeded(state, ResponseTables(responses[..j + 1]))
  {
    var t := responses[j].0;
    assert ResponseTables(responses[..j + 1]) == ResponseTables(responses[..j]) + {t} by {
      assert responses[..j + 1][j] == responses[j];
    }
    assert t !in ResponseTables(responses[..j]);
  }

  lemma ThrottledStep(u: seq<(string, Option<seq<Item>>)>, i: nat)
    requires i < |u|
    ensures ThrottledCalls(u[..i + 1]) ==
            ThrottledCalls(u[..i]) + (if u[i].1.Some? then [HandleThrottledCall(u[i].0, u[i].1.value)] else [])
    ensures ThrottledTables(u[..i + 1]) == ThrottledTables(u[..i]) + (if u[i].1.Some? then {u[i].0} else {})
  {
    assert u[..i + 1][..i] == u[..i];
  }

  lemma TaggedStep(responses: seq<(string, seq<Item>)>, j: nat)
    requires j < |responses|
    ensures Tagged(responses[..j + 1]) == Tagged(responses[..j]) + Tag(responses[j].0, responses[j].1)
  {
    assert responses[..j + 1][..j] == responses[..j];
  }

  /** Finding or creating the table's part and pushing the key onto it is
      the builder step. */
  lemma PushStep(request: RequestItems, read: Read, state: map<string, TableState>,
                 found: RequestItems, j: nat, after: RequestItems)
    requires read.0 in state
    requires IndexOfTable(request, read.0).None? ==>
               found == request + [(read.0, NewSegment(state[read.0]))] && j == |request|
    requires IndexOfTable(request, read.0).Some? ==>
               found == request && j == IndexOfTable(request, read.0).value
    requires j < |found|
    requires after == found[j := (read.0, found[j].1.(Keys := found[j].1.Keys + [read.1]))]
    ensures after == AddKey(request, read, state)
  {
    if IndexOfTable(request, read.0).None? {
      var seg := NewSegment(state[read.0]);
      assert found[j] == (read.0, seg);
      PushOntoNewPart(request, read, seg, after);
    }
  }

  /** Pushing a key onto a part created with no keys is creating the part
      with that one key. */
  lemma PushOntoNewPart(request: RequestItems, read: Read, seg: KeysAndAttributes, after: RequestItems)
    requires seg.Keys == []
    requires after == (request + [(read.0, seg)])[|request| := (read.0, seg.(Keys := seg.Keys + [read.1]))]
    ensures after == request + [(read.0, seg.(Keys := [read.1]))]
  {
    assert seg.Keys + [read.1] == [read.1];
    UpdateLast(request, (read.0, seg), (read.0, seg.(Keys := [read.1])));
  }

  lemma UpdateLast<T>(s: seq<T>, x: T, y: T)
    ensures (s + [x])[|s| := y] == s + [y]
  {
  }

  lemma ConcatAssoc<T>(a: seq<T>, b: seq<T>, c: seq<T>)
    ensures (a + b) + c == a + (b + c)
  {
  }
}
