/**
 * `LocalstorageManager`: `set` encodes a value into the store, `get` reads a plain key or walks
 * a dotted key into the stored value, `remove` and `clear` pass straight to the store.
 */
module LocalstorageManager {
  import opened Wrappers
  import opened JsonValue
  import opened Decimal
  import opened JsonEncode
  import opened JsonDecode
  import opened JsonCodec
  import opened Storage
  import opened DottedKey
  import opened Path

  /** A JavaScript value handed to `set`, by what `typeof` says of it. */
  datatype Value =
    | Function           // typeof 'function'
    | Undefined          // typeof 'undefined'
    | Data(json: Json)   // a JSON value: 'object' (null, arrays, objects), 'boolean', 'number' or 'string'

  /** What an operation returned or threw, the store calls it made, and the store afterwards. */
  datatype Reply<T> = Reply(result: Result<T, Error>, calls: seq<StoreCall>, after: Store)

  /** `typeof v === 'object'`: `null`, arrays and plain objects. */
  predicate IsObjectTyped(v: Json) {
    v.JNull? || v.JArr? || v.JObj?
  }

  /**
   * The text `setItem` makes of a primitive: `String(value)`. A string is itself; a number or a
   * boolean reads the same as its JSON encoding.
   */
  function TextForm(v: Value): (t: string)
    requires v.Undefined? || (v.Data? && !IsObjectTyped(v.json))
    ensures v.Undefined? ==> t == "undefined"
    ensures v.Data? && v.json.JStr? ==> t == v.json.s
    ensures v.Data? && !v.json.JStr? ==> t == Encode(v.json)
  {
    match v
    case Undefined => "undefined"
    case Data(j) =>
      match j
      case JBool(b) => if b then "true" else "false"
      case JNum(n) => IntText(n)
      case JStr(s) => s
  }

  /**
   * The text `set` stores: the JSON encoding of an object-typed value, the text form of
   * anything else. Numbers and booleans come out the same both ways; only strings stay raw.
   */
  function StoredText(v: Value): (t: string)
    requires !v.Function?
    ensures v.Data? && v.json.JStr? ==> t == v.json.s
    ensures v.Data? && !v.json.JStr? ==> t == Encode(v.json)
    ensures v.Undefined? ==> t == "undefined"
  {
    if v.Data? && IsObjectTyped(v.json) then Encode(v.json) else TextForm(v)
  }

  /** Whatever `set` stores for a well-formed non-string value parses back to that value. */
  lemma StoredTextDecodes(v: Json)
    requires WellFormed(v) && !v.JStr?
    ensures Decode(StoredText(Data(v))) == Some(v)
  {
    RoundTrip(v);
  }

  /**
   * `set(key, value)`: a function is refused before the store is touched; anything else is
   * written under `key` exactly, dots and all, and no other key changes.
   */
  function Set(store: Store, key: string, value: Value): (r: Reply<()>)
    ensures r.after == ApplyAll(store, r.calls)
    ensures r.result.Failure? <==> value.Function?
    ensures value.Function? ==> r.result.error == UnsupportedValue && r.calls == [] && r.after == store
    ensures !value.Function? ==> r.calls == [SetItem(key, StoredText(value))]
    ensures !value.Function? ==> Read(r.after, key) == Some(StoredText(value))
    ensures forall k :: k != key ==> Read(r.after, k) == Read(store, k)
  {
    if value.Function? then Reply(Failure(UnsupportedValue), [], store)
    else
      var call := SetItem(key, StoredText(value));
      assert ApplyAll(store, [call]) == ApplyAll(Apply(store, call), []);
      Reply(Success(()), [call], Apply(store, call))
  }

  /**
   * `get(key)`: a dotted key walks into the value stored under its first segment; a plain key
   * gives `null` for a missing or empty entry, the decoded value when the text parses, and
   * the text itself when it does not. The store is only read.
   */
  function Get(store: Store, key: string): (r: Reply<Json>)
    ensures r.after == store && r.after == ApplyAll(store, r.calls)
    ensures ReadOnly(r.calls) && |r.calls| <= 1
    ensures '.' !in key ==> r.result.Success? && r.calls == [GetItem(key)]
    ensures '.' !in key && (key !in store || store[key] == "") ==> r.result.value == JNull
    ensures '.' !in key && key in store && store[key] != "" && Decode(store[key]).Some? ==>
      r.result.value == Decode(store[key]).value
    ensures '.' !in key && key in store && store[key] != "" && Decode(store[key]).None? ==>
      r.result.value == JStr(store[key])
  {
    if '.' in key then GetNestedProperty(store, key)
    else
      var item := Read(store, key);
      ReadOnlyKeepsStore(store, [GetItem(key)]);
      var value :=
        if item.None? || item.value == "" then JNull
        else match Decode(item.value)
          case Some(v) => v
          case None => JStr(item.value);
      Reply(Success(value), [GetItem(key)], store)
  }

  /**
   * `getNestedProperty(key)`: an empty first segment gives `null` without touching the store;
   * otherwise the first segment is read, a missing or empty entry gives `null`, text that does
   * not parse throws, and the parsed value is walked along the remaining segments.
   */
  function GetNestedProperty(store: Store, key: string): (r: Reply<Json>)
    requires '.' in key
    ensures r.after == store && r.after == ApplyAll(store, r.calls)
    ensures ReadOnly(r.calls)
    ensures Split(key)[0] == "" ==> r.result == Success(JNull) && r.calls == []
    ensures Split(key)[0] != "" ==> r.calls == [GetItem(Split(key)[0])]
    ensures Split(key)[0] !in store || store[Split(key)[0]] == "" ==> r.result == Success(JNull)
    ensures r.result.Success? ==> r.result.value == JNull || Truthy(r.result.value)
    ensures r.result == Failure(SyntaxError) <==>
      var root := Split(key)[0];
      root != "" && root in store && store[root] != "" && Decode(store[root]).None?
    ensures r.result == Failure(TypeError) ==>
      Split(key)[0] in store && Decode(store[Split(key)[0]]) == Some(JNull)
    ensures
      var root := Split(key)[0];
      root != "" && root in store && store[root] != "" && Decode(store[root]).Some? ==>
        r.result == Resolve(Decode(store[root]).value, Split(key)[1..])
  {
    var segs := Split(key);
    var root := segs[0];
    assert |segs| > 1 by {
      JoinSplit(key);
    }
    if root == "" then Reply(Success(JNull), [], store)
    else
      var item := Read(store, root);
      ReadOnlyKeepsStore(store, [GetItem(root)]);
      if item.None? || item.value == "" then Reply(Success(JNull), [GetItem(root)], store)
      else
        match Decode(item.value)
        case None => Reply(Failure(SyntaxError), [GetItem(root)], store)
        case Some(current) => Reply(Resolve(current, segs[1..]), [GetItem(root)], store)
  }

  /** `remove(key)`: `key` is gone, nothing else changes, and a missing key is no error. */
  function Remove(store: Store, key: string): (r: Reply<()>)
    ensures r.after == ApplyAll(store, r.calls) && r.calls == [RemoveItem(key)]
    ensures r.result.Success? && key !in r.after
    ensures forall k :: k != key ==> Read(r.after, k) == Read(store, k)
    ensures key !in store ==> r.after == store
  {
    var call := RemoveItem(key);
    assert ApplyAll(store, [call]) == ApplyAll(Apply(store, call), []);
    Reply(Success(()), [call], Apply(store, call))
  }

  /** `clear()`: no entry is left. */
  function Clear(store: Store): (r: Reply<()>)
    ensures r.after == ApplyAll(store, r.calls) && r.calls == [ClearAll]
    ensures r.result.Success? && |r.after| == 0
  {
    var call := ClearAll;
    assert ApplyAll(store, [call]) == ApplyAll(Apply(store, call), []);
    Reply(Success(()), [call], Apply(store, call))
  }
}
