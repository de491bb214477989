/**
 * The browser's string-to-string store, seen through the four calls the manager makes on it.
 * Operations report the calls they make; the store afterwards is the effect of those calls.
 */
module Storage {
  import opened Wrappers

  type Store = map<string, string>

  /** One call on the store: `getItem`, `setItem`, `removeItem` or `clear`. */
  datatype StoreCall =
    | GetItem(key: string)
    | SetItem(key: string, value: string)
    | RemoveItem(key: string)
    | ClearAll

  /** `getItem(key)`: the stored text, or `None` where the browser returns `null`. */
  function Read(store: Store, key: string): (r: Option<string>)
    ensures r.Some? <==> key in store
    ensures r.Some? ==> r.value == store[key]
  {
    if key in store then Some(store[key]) else None
  }

  /** The store after one call. */
  function Apply(store: Store, call: StoreCall): Store {
    match call
    case GetItem(_) => store
    case SetItem(k, v) => store[k := v]
    case RemoveItem(k) => store - {k}
    case ClearAll => map[]
  }

  /**
   * What `getItem` sees after one call: the text just set under that key, nothing once the key
   * is removed or the store cleared, and what it saw before for every other key and call.
   */
  lemma ReadAfter(store: Store, call: StoreCall, k: string)
    ensures Read(Apply(store, call), k) ==
      match call
      case GetItem(_) => Read(store, k)
      case SetItem(key, v) => if key == k then Some(v) else Read(store, k)
      case RemoveItem(key) => if key == k then None else Read(store, k)
      case ClearAll => None
  {
  }

  /** The store after a sequence of calls, made in order. */
  function ApplyAll(store: Store, calls: seq<StoreCall>): Store
    decreases |calls|
  {
    if |calls| == 0 then store else ApplyAll(Apply(store, calls[0]), calls[1..])
  }

  /** Only reads. */
  predicate ReadOnly(calls: seq<StoreCall>) {
    forall i :: 0 <= i < |calls| ==> calls[i].GetItem?
  }

  /** Reads alone never change the store. */
  lemma {:induction false} ReadOnlyKeepsStore(store: Store, calls: seq<StoreCall>)
    requires ReadOnly(calls)
    ensures ApplyAll(store, calls) == store
    decreases |calls|
  {
    if |calls| > 0 {
      assert ReadOnly(calls[1..]) by {
        assert forall i :: 0 <= i < |calls| - 1 ==> calls[1..][i] == calls[i + 1];
      }
      ReadOnlyKeepsStore(store, calls[1..]);
    }
  }

  /** Running two call sequences one after the other is running their concatenation. */
  lemma {:induction false} ApplyAllAppend(store: Store, first: seq<StoreCall>, second: seq<StoreCall>)
    ensures ApplyAll(store, first + second) == ApplyAll(ApplyAll(store, first), second)
    decreases |first|
  {
    if |first| > 0 {
      assert (first + second)[1..] == first[1..] + second;
      ApplyAllAppend(Apply(store, first[0]), first[1..], second);
    } else {
      assert first + second == second;
    }
  }
}
