/** The identity string of a write request: the table name, the kind of
    operation and the key-type attributes (B, N and S) of the written item or of
    the deleted key, in ascending order of attribute name. The batch writer uses
    it to recognise the requests that the store echoes back as unprocessed. */
module ItemIdentity {
  import opened Wrappers
  import opened JsRuntime
  import Utf8Bytes
  import opened AttributeValues

  /** The errors thrown: `new Error("Invalid write request provided")` and
      `new Error("Unrecognized binary type")`. */
  datatype IdentifierError = InvalidWriteRequest | UnrecognizedBinaryType

  const DeleteTag: string := "::delete::"
  const PutTag: string := "::put::"

  // ---------------------------------------------------------------------------
  // Binary values

  /** JavaScript truthiness of a `B` value: every object is truthy, a string is
      truthy unless it is empty. */
  predicate Truthy(b: BinaryValue)
  {
    !(b.Text? && b.text == "")
  }

  /** Truthiness of an optional string member (`N`, `S`). */
  predicate Present(s: Option<string>)
  {
    s.Some? && s.value != ""
  }

  /** `toByteArray`: the raw bytes a binary value denotes. A view gives the
      bytes it covers, a string its UTF-8 encoding, an ArrayBuffer its contents;
      anything else is refused. */
  function ToByteArray(value: BinaryValue): (r: Result<seq<uint8>, IdentifierError>)
    ensures r.Failure? <==> value.Unrecognized?
    ensures r.Failure? ==> r.error == UnrecognizedBinaryType
  {
    match value
    case View(v) => Success(v.buffer[v.byteOffset .. v.byteOffset + v.byteLength])
    case Text(s) => Success(Utf8Bytes.Encode(s))
    case ArrayBuffer(bytes) => Success(bytes)
    case Unrecognized => Failure(UnrecognizedBinaryType)
  }

  /** Two truthy binary values that denote the same bytes. */
  predicate SameBytes(b: BinaryValue, c: BinaryValue)
  {
    Truthy(b) && Truthy(c) && ToByteArray(b).Success? && ToByteArray(b) == ToByteArray(c)
  }

  /** A view, an ArrayBuffer and a non-empty string holding the same bytes are
      interchangeable. */
  lemma SourcesOfSameBytes(v: ArrayBufferView, s: string)
    requires s != []
    ensures var bytes := v.buffer[v.byteOffset .. v.byteOffset + v.byteLength];
      && SameBytes(View(v), ArrayBuffer(bytes))
      && SameBytes(Text(s), ArrayBuffer(Utf8Bytes.Encode(s)))
      && (bytes == Utf8Bytes.Encode(s) ==> SameBytes(View(v), Text(s)))
  {
  }

  // ---------------------------------------------------------------------------
  // serializeKeyTypeAttributes

  /** The attribute's `B` member holds a value of no recognised binary kind. */
  predicate HasUnrecognizedBinary(a: AttributeValue)
  {
    a.B == Some(Unrecognized)
  }

  /** The `name=value` entry one attribute contributes, if any: a truthy `B`
      as its comma-joined decimal bytes, else a non-empty `N`, else a non-empty
      `S`; otherwise nothing. */
  function Entry(name: string, a: AttributeValue): (r: Result<Option<string>, IdentifierError>)
    ensures r.Failure? <==> HasUnrecognizedBinary(a)
    ensures r.Success? && r.value.None? <==>
      (a.B.None? || !Truthy(a.B.value)) && !Present(a.N) && !Present(a.S)
    ensures r.Success? && r.value.Some? ==>
      |r.value.value| > |name| && r.value.value[..|name| + 1] == name + "="
  {
    if a.B.Some? && Truthy(a.B.value) then
      match ToByteArray(a.B.value)
      case Success(bytes) => Success(Some(name + "=" + BytesToString(bytes)))
      case Failure(e) => Failure(e)
    else if Present(a.N) then Success(Some(name + "=" + a.N.value))
    else if Present(a.S) then Success(Some(name + "=" + a.S.value))
    else Success(None)
  }

  /** The entries of the named attributes of m, in the order of names; the
      first attribute that cannot be serialised decides the error. */
  function Entries(names: seq<string>, m: AttributeMap): (r: Result<seq<string>, IdentifierError>)
    ensures r.Failure? <==> exists n :: n in names && HasUnrecognizedBinary(Get(m, n))
    ensures r.Failure? ==> r.error == UnrecognizedBinaryType
    ensures r.Success? ==> |r.value| <= |names|
  {
    if names == [] then Success([])
    else
      assert forall n :: n in names <==> n == names[0] || n in names[1..] by {
        assert names == [names[0]] + names[1..];
      }
      Cons(Entry(names[0], Get(m, names[0])), Entries(names[1..], m))
  }

  /** The entry of one attribute, if any, followed by those of the rest. */
  function Cons(first: Result<Option<string>, IdentifierError>, rest: Result<seq<string>, IdentifierError>)
    : Result<seq<string>, IdentifierError>
  {
    match first
    case Failure(e) => Failure(e)
    case Success(f) =>
      match rest
      case Failure(e) => Failure(e)
      case Success(es) => Success(if f.Some? then [f.value] + es else es)
  }

  /** The serialised key-type attributes of m: its entries in ascending order
      of attribute name, joined by `&`. */
  function Serialize(m: AttributeMap): (r: Result<string, IdentifierError>)
    ensures r.Failure? <==> exists n :: n in PropertyNames(m) && HasUnrecognizedBinary(Get(m, n))
    ensures r.Failure? ==> r.error == UnrecognizedBinaryType
  {
    var names := Sort(PropertyNames(m));
    SortedNamesAreNames(m);
    match Entries(names, m)
    case Success(es) => Success(Join(es, "&"))
    case Failure(e) =>
      var n :| n in names && HasUnrecognizedBinary(Get(m, n));
      assert n in PropertyNames(m);
      Failure(e)
  }

  /** Sorting keeps exactly the property names. */
  lemma SortedNamesAreNames(m: AttributeMap)
    ensures forall n :: n in Sort(PropertyNames(m)) <==> n in PropertyNames(m)
  {
    forall n ensures n in Sort(PropertyNames(m)) <==> n in PropertyNames(m) {
      assert n in Sort(PropertyNames(m)) <==> n in multiset(Sort(PropertyNames(m)));
    }
  }

  /** Prepends the entries already collected to the outcome of the rest. */
  function Prepend(done: seq<string>, rest: Result<seq<string>, IdentifierError>): Result<seq<string>, IdentifierError>
  {
    match rest
    case Success(es) => Success(done + es)
    case Failure(e) => Failure(e)
  }

  /** `serializeKeyTypeAttributes`: the loop over the sorted property names
      that collects the entries and joins them. */
  method SerializeKeyTypeAttributes(attributes: AttributeMap) returns (r: Result<string, IdentifierError>)
    ensures r == Serialize(attributes)
  {
    var names := Sort(PropertyNames(attributes));
    var keyTypeProperties: seq<string> := [];
    var i := 0;
    PrependNothing(Entries(names, attributes));
    while i < |names|
      invariant 0 <= i <= |names|
      invariant Entries(names, attributes) == Prepend(keyTypeProperties, Entries(names[i..], attributes))
    {
      var property := names[i];
      var attribute := Get(attributes, property);
      var next := PushEntry(keyTypeProperties, property, attribute);
      if next.Failure? {
        CollectFails(names, i, attributes, keyTypeProperties);
        SerializeFails(attributes, next.error);
        return Failure(next.error);
      }
      CollectStep(names, i, attributes, keyTypeProperties, next.value);
      keyTypeProperties := next.value;
      i := i + 1;
    }
    assert names[i..] == [];
    PrependNothing(Success(keyTypeProperties));
    SerializeJoins(attributes, keyTypeProperties);
    r := Success(Join(keyTypeProperties, "&"));
  }

  lemma SerializeFails(m: AttributeMap, e: IdentifierError)
    requires Entries(Sort(PropertyNames(m)), m) == Failure(e)
    ensures Serialize(m) == Failure(e)
  {
  }

  lemma SerializeJoins(m: AttributeMap, es: seq<string>)
    requires Entries(Sort(PropertyNames(m)), m) == Success(es)
    ensures Serialize(m) == Success(Join(es, "&"))
  {
  }

  /** One turn of the loop: the entry of one attribute, if any, is pushed
      onto those already collected. */
  method PushEntry(keyTypeProperties: seq<string>, property: string, attribute: AttributeValue)
    returns (r: Result<seq<string>, IdentifierError>)
    ensures Entry(property, attribute).Failure? ==> r == Failure(Entry(property, attribute).error)
    ensures Entry(property, attribute).Success? ==>
      var e := Entry(property, attribute).value;
      r == Success(keyTypeProperties + (if e.Some? then [e.value] else []))
  {
    if attribute.B.Some? && Truthy(attribute.B.value) {
      var bytes := ToByteArray(attribute.B.value);
      if bytes.Failure? {
        return Failure(bytes.error);
      }
      r := Success(keyTypeProperties + [property + "=" + BytesToString(bytes.value)]);
    } else if Present(attribute.N) {
      r := Success(keyTypeProperties + [property + "=" + attribute.N.value]);
    } else if Present(attribute.S) {
      r := Success(keyTypeProperties + [property + "=" + attribute.S.value]);
    } else {
      r := Success(keyTypeProperties);
      assert keyTypeProperties + [] == keyTypeProperties;
    }
  }

  /** A turn of the loop that collects an entry keeps the loop invariant. */
  lemma CollectStep(names: seq<string>, i: nat, m: AttributeMap, done: seq<string>, next: seq<string>)
    requires i < |names|
    requires Entries(names, m) == Prepend(done, Entries(names[i..], m))
    requires Entry(names[i], Get(m, names[i])).Success?
    requires var e := Entry(names[i], Get(m, names[i])).value;
             next == done + (if e.Some? then [e.value] else [])
    ensures Entries(names, m) == Prepend(next, Entries(names[i + 1..], m))
  {
    EntriesStep(names, i, m);
    PrependCons(done, Entry(names[i], Get(m, names[i])), Entries(names[i + 1..], m));
  }

  /** A turn of the loop that meets an unrecognised binary ends it with the
      error of the whole serialisation. */
  lemma CollectFails(names: seq<string>, i: nat, m: AttributeMap, done: seq<string>)
    requires i < |names|
    requires Entries(names, m) == Prepend(done, Entries(names[i..], m))
    requires Entry(names[i], Get(m, names[i])).Failure?
    ensures Entries(names, m) == Failure(Entry(names[i], Get(m, names[i])).error)
  {
    EntriesStep(names, i, m);
  }

  lemma PrependNothing(r: Result<seq<string>, IdentifierError>)
    ensures Prepend([], r) == r
    ensures r.Success? ==> Prepend(r.value, Success([])) == r
  {
    if r.Success? {
      assert [] + r.value == r.value && r.value + [] == r.value;
    }
  }

  /** One turn of the loop: the entries from index i on are the entry at i
      followed by the entries after it. */
  lemma EntriesStep(names: seq<string>, i: nat, m: AttributeMap)
    requires i < |names|
    ensures Entries(names[i..], m) == Cons(Entry(names[i], Get(m, names[i])), Entries(names[i + 1..], m))
  {
    assert names[i..][0] == names[i] && names[i..][1..] == names[i + 1..];
  }

  /** Collecting an entry moves it from the outcome of the rest to the
      entries already collected. */
  lemma PrependCons(done: seq<string>, first: Result<Option<string>, IdentifierError>,
                    rest: Result<seq<string>, IdentifierError>)
    requires first.Success?
    ensures Prepend(done, Cons(first, rest))
         == Prepend(done + (if first.value.Some? then [first.value.value] else []), rest)
  {
    if rest.Success? {
      var f := first.value;
      if f.Some? {
        assert done + ([f.value] + rest.value) == (done + [f.value]) + rest.value;
      } else {
        assert done + [] == done;
      }
    }
  }

  // ---------------------------------------------------------------------------
  // itemIdentifier

  /** The key of a delete request, when it has one. */
  function DeleteKey(request: WriteRequest): Option<AttributeMap>
  {
    if request.DeleteRequest.Some? then request.DeleteRequest.value.Key else None
  }

  /** The item of a put request, when it has one. */
  function PutItem(request: WriteRequest): Option<AttributeMap>
  {
    if request.PutRequest.Some? then request.PutRequest.value.Item else None
  }

  /** The identity of a write request against table tableName. A delete key
      wins over a put item; a request with neither is invalid; a binary value
      of no recognised kind is refused. */
  function Identifier(tableName: string, request: WriteRequest): (r: Result<string, IdentifierError>)
    ensures r == Failure(InvalidWriteRequest) <==> DeleteKey(request).None? && PutItem(request).None?
    ensures DeleteKey(request).Some? ==>
      && (r.Success? <==> Serialize(DeleteKey(request).value).Success?)
      && (r.Success? ==> r.value == tableName + DeleteTag + Serialize(DeleteKey(request).value).value)
    ensures DeleteKey(request).None? && PutItem(request).Some? ==>
      && (r.Success? <==> Serialize(PutItem(request).value).Success?)
      && (r.Success? ==> r.value == tableName + PutTag + Serialize(PutItem(request).value).value)
  {
    if DeleteKey(request).Some? then
      match Serialize(DeleteKey(request).value)
      case Success(s) => Success(tableName + DeleteTag + s)
      case Failure(e) => Failure(e)
    else if PutItem(request).Some? then
      match Serialize(PutItem(request).value)
      case Success(s) => Success(tableName + PutTag + s)
      case Failure(e) => Failure(e)
    else Failure(InvalidWriteRequest)
  }

  /** `itemIdentifier`, computing the serialisation with the loop. */
  method ItemIdentifier(tableName: string, request: WriteRequest) returns (r: Result<string, IdentifierError>)
    ensures r == Identifier(tableName, request)
  {
    var key := DeleteKey(request);
    var item := PutItem(request);
    if key.Some? {
      var s := SerializeKeyTypeAttributes(key.value);
      if s.Failure? {
        return Failure(s.error);
      }
      return Success(tableName + DeleteTag + s.value);
    } else if item.Some? {
      var s := SerializeKeyTypeAttributes(item.value);
      if s.Failure? {
        return Failure(s.error);
      }
      return Success(tableName + PutTag + s.value);
    }
    return Failure(InvalidWriteRequest);
  }

  // ---------------------------------------------------------------------------
  // Properties

  /** For one table, a delete and a put never share an identity: the two
      differ at the first letter of the operation tag. */
  lemma PutAndDeleteNeverCollide(tableName: string, delete: WriteRequest, put: WriteRequest)
    requires DeleteKey(delete).Some? && DeleteKey(put).None?
    requires Identifier(tableName, delete).Success? && Identifier(tableName, put).Success?
    ensures Identifier(tableName, delete).value != Identifier(tableName, put).value
  {
    var d := Identifier(tableName, delete).value;
    var p := Identifier(tableName, put).value;
    CharAfter(tableName, DeleteTag, Serialize(DeleteKey(delete).value).value, 2);
    CharAfter(tableName, PutTag, Serialize(PutItem(put).value).value, 2);
    assert d[|tableName| + 2] != p[|tableName| + 2];
  }

  lemma CharAfter(prefix: string, tag: string, rest: string, j: nat)
    requires j < |tag|
    ensures (prefix + tag + rest)[|prefix| + j] == tag[j]
  {
  }

  /** Entries depend on an attribute map only through the entries its
      attributes yield. */
  lemma {:induction false} EntriesAgree(names: seq<string>, m: AttributeMap, m': AttributeMap)
    requires forall n :: n in names ==> Entry(n, Get(m, n)) == Entry(n, Get(m', n))
    ensures Entries(names, m) == Entries(names, m')
  {
    if names != [] {
      assert forall n :: n in names[1..] ==> n in names;
      EntriesAgree(names[1..], m, m');
    }
  }

  /** The serialisation does not depend on the order in which the attributes
      were inserted into the object. */
  lemma SerializeIgnoresOrder(m: AttributeMap, m': AttributeMap)
    requires UniqueNames(m) && UniqueNames(m')
    requires forall e :: e in m <==> e in m'
    ensures Serialize(m) == Serialize(m')
  {
    SameNames(m, m');
    var sorted, sorted' := Sort(PropertyNames(m)), Sort(PropertyNames(m'));
    SortedNamesAreNames(m);
    SortedNamesAreNames(m');
    SortedUniqueNames(m);
    SortedUniqueNames(m');
    StrictlyIncreasingUnique(sorted, sorted');
    forall n | n in sorted ensures Get(m, n) == Get(m', n) {
      GetUnique(m', n, Get(m, n));
    }
    EntriesAgree(sorted, m, m');
  }

  /** Objects with the same properties have the same property names. */
  lemma SameNames(m: AttributeMap, m': AttributeMap)
    requires forall e :: e in m <==> e in m'
    ensures forall n :: n in PropertyNames(m) <==> n in PropertyNames(m')
  {
    var names, names' := PropertyNames(m), PropertyNames(m');
    forall n ensures n in names <==> n in names' {
      if n in names {
        var k :| 0 <= k < |m| && names[k] == n;
        assert m[k] in m';
        var k' :| 0 <= k' < |m'| && m'[k'] == m[k];
        assert names'[k'] == n;
      }
      if n in names' {
        var k' :| 0 <= k' < |m'| && names'[k'] == n;
        assert m'[k'] in m;
        var k :| 0 <= k < |m| && m[k] == m'[k'];
        assert names[k] == n;
      }
    }
  }

  /** The sorted names of an object are strictly increasing. */
  lemma SortedUniqueNames(m: AttributeMap)
    requires UniqueNames(m)
    ensures StrictlyIncreasing(Sort(PropertyNames(m)))
  {
    UniqueNamesDistinct(m);
    DistinctMultiset(PropertyNames(m), Sort(PropertyNames(m)));
    OrderedDistinctIsStrict(Sort(PropertyNames(m)));
  }

  lemma UniqueNamesDistinct(m: AttributeMap)
    requires UniqueNames(m)
    ensures Distinct(PropertyNames(m))
  {
  }

  /** The same write request with its key or item attributes inserted in
      another order. */
  ghost predicate Reordered(a: Option<AttributeMap>, b: Option<AttributeMap>)
  {
    a.Some? == b.Some? &&
    (a.Some? ==> UniqueNames(a.value) && UniqueNames(b.value) &&
                 forall e :: e in a.value <==> e in b.value)
  }

  /** The identity does not depend on attribute insertion order. */
  lemma IdentifierIgnoresOrder(tableName: string, request: WriteRequest, request': WriteRequest)
    requires Reordered(DeleteKey(request), DeleteKey(request'))
    requires Reordered(PutItem(request), PutItem(request'))
    ensures Identifier(tableName, request) == Identifier(tableName, request')
  {
    if DeleteKey(request).Some? {
      SerializeIgnoresOrder(DeleteKey(request).value, DeleteKey(request').value);
    } else if PutItem(request).Some? {
      SerializeIgnoresOrder(PutItem(request).value, PutItem(request').value);
    }
  }

  /** Replacing the `B` value of the attribute at index k by another one that
      denotes the same bytes. */
  function WithBinary(m: AttributeMap, k: nat, b: BinaryValue): AttributeMap
    requires k < |m|
  {
    m[k := (m[k].0, m[k].1.(B := Some(b)))]
  }

  /** Changing the value stored at index k changes `m[n]` at most into that
      value. */
  lemma {:induction false} GetAfterUpdate(m: AttributeMap, k: nat, v: AttributeValue, n: string)
    requires k < |m|
    ensures PropertyNames(m[k := (m[k].0, v)]) == PropertyNames(m)
    ensures var m' := m[k := (m[k].0, v)];
      Get(m', n) == Get(m, n) || (Get(m, n) == m[k].1 && Get(m', n) == v)
  {
    var m' := m[k := (m[k].0, v)];
    NamesAfterUpdate(m, k, v);
    assert m'[0].0 == m[0].0;
    if m[0].0 != n {
      assert Get(m', n) == Get(m'[1..], n) && Get(m, n) == Get(m[1..], n);
      if k == 0 {
        assert m'[1..] == m[1..];
      } else {
        assert m'[1..] == m[1..][k - 1 := (m[1..][k - 1].0, v)];
        GetAfterUpdate(m[1..], k - 1, v, n);
      }
    }
  }

  /** Changing a value leaves the property names as they were. */
  lemma NamesAfterUpdate(m: AttributeMap, k: nat, v: AttributeValue)
    requires k < |m|
    ensures PropertyNames(m[k := (m[k].0, v)]) == PropertyNames(m)
  {
    var m' := m[k := (m[k].0, v)];
    assert forall i :: 0 <= i < |m| ==> m'[i].0 == m[i].0;
  }

  /** A binary attribute serialises the same whichever form its bytes are
      given in: a view, an ArrayBuffer or a (non-empty) string. */
  lemma BinaryFormIrrelevant(m: AttributeMap, k: nat, b: BinaryValue)
    requires k < |m| && m[k].1.B.Some? && SameBytes(m[k].1.B.value, b)
    ensures Serialize(WithBinary(m, k, b)) == Serialize(m)
  {
    var m' := WithBinary(m, k, b);
    assert PropertyNames(m') == PropertyNames(m);
    var names := Sort(PropertyNames(m));
    forall n | n in names ensures Entry(n, Get(m, n)) == Entry(n, Get(m', n)) {
      GetAfterUpdate(m, k, m[k].1.(B := Some(b)), n);
    }
    EntriesAgree(names, m, m');
  }

  /** An empty string in `B` is falsy and is skipped, while an empty buffer
      still yields an entry: the normalisation to bytes holds only for truthy
      values. */
  lemma EmptyBinaryForms()
    ensures Entry("k", AttributeValue(Some(Text("")), Some("5"), None)) == Success(Some("k=5"))
    ensures Entry("k", AttributeValue(Some(ArrayBuffer([])), Some("5"), None)) == Success(Some("k="))
  {
    assert Present(Some("5"));
    assert "k" + "=" + "5" == "k=5";
    assert "k" + "=" + "" == "k=";
  }

  /** B is looked at before N, and N before S: a truthy B of a recognised
      kind gives its bytes, else a non-empty N gives N, else a non-empty S
      gives S. */
  lemma EntryPrecedence(name: string, a: AttributeValue)
    ensures a.B.Some? && Truthy(a.B.value) && !a.B.value.Unrecognized? ==>
      Entry(name, a) == Success(Some(name + "=" + BytesToString(ToByteArray(a.B.value).value)))
    ensures (a.B.None? || !Truthy(a.B.value)) && Present(a.N) ==>
      Entry(name, a) == Success(Some(name + "=" + a.N.value))
    ensures (a.B.None? || !Truthy(a.B.value)) && !Present(a.N) && Present(a.S) ==>
      Entry(name, a) == Success(Some(name + "=" + a.S.value))
  {
  }

  /** The bytes 1 and 2 are rendered "1,2"; an empty N is skipped. */
  lemma EntryExamples()
    ensures Entry("k", AttributeValue(Some(ArrayBuffer([1, 2])), Some("5"), Some("x"))) == Success(Some("k=1,2"))
    ensures Entry("k", AttributeValue(None, Some("5"), Some("x"))) == Success(Some("k=5"))
    ensures Entry("k", AttributeValue(None, Some(""), Some("x"))) == Success(Some("k=x"))
  {
    var bytes: seq<uint8> := [1, 2];
    assert bytes[1..][1..] == [];
    assert DecimalStrings(bytes) == ["1", "2"];
    assert BytesToString(bytes) == "1,2";
    assert "k" + "=" + "1,2" == "k=1,2";
    assert "k" + "=" + "5" == "k=5";
    assert "k" + "=" + "x" == "k=x";
  }
}
