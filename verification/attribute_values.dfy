/** The DynamoDB attribute values and write requests, as far as the modelled
    code looks at them. A JavaScript object (an item, a key) is a list of
    properties in insertion order whose names are distinct. */
module AttributeValues {
  import opened Wrappers
  import opened JsRuntime

  /** What `ArrayBuffer.isView` accepts: a typed array or a DataView, seen as
      `byteLength` bytes of `buffer` starting at `byteOffset`. */
  datatype BufferView = BufferView(buffer: seq<uint8>, byteOffset: nat, byteLength: nat)

  type ArrayBufferView = v: BufferView | v.byteOffset + v.byteLength <= |v.buffer|
    witness BufferView([], 0, 0)

  /** The value held in an attribute's `B` member. */
  datatype BinaryValue =
    | View(view: ArrayBufferView)
    | Text(text: string)
    | ArrayBuffer(bytes: seq<uint8>)
      /** Any other truthy value: a number, a plain object, a Blob, ... */
    | Unrecognized

  /** An attribute value. Only the `B`, `N` and `S` members matter here; an
      attribute of another type (BOOL, L, M, NULL, SS, ...) has all three
      absent. A falsy `B` other than the empty string is the same as an absent
      one. */
  datatype AttributeValue = AttributeValue(B: Option<BinaryValue>, N: Option<string>, S: Option<string>)

  type AttributeMap = seq<(string, AttributeValue)>

  datatype DeleteRequest = DeleteRequest(Key: Option<AttributeMap>)

  datatype PutRequest = PutRequest(Item: Option<AttributeMap>)

  datatype WriteRequest = WriteRequest(DeleteRequest: Option<DeleteRequest>, PutRequest: Option<PutRequest>)

  /** `Object.keys(m)`: the property names. */
  function PropertyNames<V>(m: seq<(string, V)>): (r: seq<string>)
    ensures |r| == |m|
    ensures forall i :: 0 <= i < |m| ==> r[i] == m[i].0
  {
    if m == [] then [] else [m[0].0] + PropertyNames(m[1..])
  }

  /** An attribute with none of the members looked at. */
  const NoMembers := AttributeValue(None, None, None)

  /** `m[name]`: the value of the first property called name. The modelled
      code only asks for names that m has; for any other name the result is an
      attribute with no members. */
  function Get(m: AttributeMap, name: string): (v: AttributeValue)
    ensures name in PropertyNames(m) ==> (name, v) in m
  {
    if m == [] then NoMembers
    else if m[0].0 == name then m[0].1
    else Get(m[1..], name)
  }

  /** A JavaScript object never has two properties of the same name. */
  ghost predicate UniqueNames(m: AttributeMap)
  {
    forall i, j :: 0 <= i < j < |m| ==> m[i].0 != m[j].0
  }

  /** In an object, a property's value is the one stored under its name. */
  lemma {:induction false} GetUnique(m: AttributeMap, name: string, v: AttributeValue)
    requires UniqueNames(m) && (name, v) in m
    ensures name in PropertyNames(m) && Get(m, name) == v
  {
    var k :| 0 <= k < |m| && m[k] == (name, v);
    assert PropertyNames(m)[k] == name;
    if k > 0 {
      assert m[1..][k - 1] == (name, v);
      GetUnique(m[1..], name, v);
    }
  }
}
