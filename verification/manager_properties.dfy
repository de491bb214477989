/** What `set` followed by `get` gives, and what dotted keys do to both. */
module ManagerProperties {
  import opened Wrappers
  import opened JsonValue
  import opened Decimal
  import opened JsonEncode
  import opened JsonDecode
  import opened JsonCodec
  import opened Storage
  import opened DottedKey
  import opened Path
  import opened LocalstorageManager

  /**
   * Round trip: after `set(key, v)` on a plain key, `get(key)` gives back `v` for every
   * well-formed object, array, `null`, number or boolean.
   */
  lemma GetAfterSet(store: Store, key: string, v: Json)
    requires '.' !in key
    requires WellFormed(v) && !v.JStr?
    ensures Get(Set(store, key, Data(v)).after, key).result == Success(v)
  {
    StoredTextDecodes(v);
    EncodeStart(v);
  }

  /**
   * A string comes back as itself exactly when it is not empty and is not JSON text:
   * `""` comes back as `null`, and `"123"` or `"true"` come back decoded.
   */
  lemma GetAfterSetString(store: Store, key: string, s: string)
    requires '.' !in key
    ensures Get(Set(store, key, Data(JStr(s))).after, key).result == Success(JStr(s))
      <==> s != "" && Decode(s).None?
  {
    var after := Set(store, key, Data(JStr(s))).after;
    assert after[key] == s;
    if s != "" && Decode(s).Some? {
      assert Decode(s).value != JStr(s);
    }
  }

  /** An empty string is read back as `null`, like a missing entry. */
  lemma GetAfterSetEmptyString(store: Store, key: string)
    requires '.' !in key
    ensures Get(Set(store, key, Data(JStr(""))).after, key).result == Success(JNull)
  {
  }

  /** `undefined` is stored as the text "undefined", which is read back as that string. */
  lemma GetAfterSetUndefined(store: Store, key: string)
    requires '.' !in key
    ensures Get(Set(store, key, Undefined).after, key).result == Success(JStr("undefined"))
  {
    var after := Set(store, key, Undefined).after;
    assert after[key] == "undefined";
    UndefinedIsNotJson(after[key]);
  }

  /** The text "undefined" is not JSON: `JSON.parse` throws on it. */
  lemma UndefinedIsNotJson(t: string)
    requires t == "undefined"
    ensures Decode(t).None?
  {
    assert SkipWhitespace(t) == t;
    assert t[0] == 'u';
  }

  /** A non-empty key segment before a dot makes a dotted key; its segments are the parts. */
  lemma JoinedPath(root: string, path: seq<string>)
    requires '.' !in root
    requires |path| > 0 && forall i :: 0 <= i < |path| ==> '.' !in path[i]
    ensures '.' in Join([root] + path)
    ensures Split(Join([root] + path)) == [root] + path
  {
    var parts := [root] + path;
    assert parts[1..] == path;
    assert Join(parts) == root + "." + Join(path);
    assert Join(parts)[|root|] == '.';
    SplitJoin(parts);
  }

  /**
   * `set(root, v)` then `get("root.p1.p2...")` walks the stored value: the answer is what
   * the path resolves to in `v`.
   */
  lemma GetPathAfterSet(store: Store, root: string, v: Json, path: seq<string>)
    requires root != "" && '.' !in root
    requires |path| > 0 && forall i :: 0 <= i < |path| ==> '.' !in path[i]
    requires WellFormed(v) && !v.JStr?
    ensures Get(Set(store, root, Data(v)).after, Join([root] + path)).result == Resolve(v, path)
  {
    JoinedPath(root, path);
    StoredTextDecodes(v);
    EncodeStart(v);
    assert ([root] + path)[1..] == path;
  }

  /**
   * `null` stored under the root of a dotted key makes `get` throw: the first segment is
   * read off `null`.
   */
  lemma GetPathThroughNull(store: Store, root: string, path: seq<string>)
    requires root != "" && '.' !in root
    requires |path| > 0 && forall i :: 0 <= i < |path| ==> '.' !in path[i]
    ensures Get(Set(store, root, Data(JNull)).after, Join([root] + path)).result == Failure(TypeError)
  {
    GetPathAfterSet(store, root, JNull, path);
  }

  /**
   * `set` treats a dotted key as one plain key, and `get` of that same key reads only its
   * first segment, so it does not see what `set` wrote.
   */
  lemma DottedSetInvisibleToGet(store: Store, key: string, value: Value)
    requires '.' in key
    ensures Get(Set(store, key, value).after, key).result == Get(store, key).result
  {
    FirstSegmentIsPrefix(key);
    var root := Split(key)[0];
    assert root != key;
    var after := Set(store, key, value).after;
    assert Read(after, root) == Read(store, root);
  }

  /** A key starting with a dot (`"...."`, `".a"`) gives `null` and makes no store call. */
  lemma LeadingDotGivesNull(store: Store, key: string)
    requires |key| > 0 && key[0] == '.'
    ensures Get(store, key) == Reply(Success(JNull), [], store)
  {
    LeadingDotEmptyRoot(key);
  }

  /** Segments that denote the same number address the same element or property. */
  lemma SameNumberSameMember(current: Json, a: string, b: string)
    requires IsDigits(a) && IsDigits(b)
    requires DigitsValue(a) == DigitsValue(b)
    ensures Lookup(current, a) == Lookup(current, b)
  {
  }

  /** Removing twice is removing once. */
  lemma RemoveIdempotent(store: Store, key: string)
    ensures Remove(Remove(store, key).after, key).after == Remove(store, key).after
  {
  }

  /** Removing a key that `set` just added gives back the store as it was before. */
  lemma RemoveUndoesSet(store: Store, key: string, value: Value)
    requires key !in store
    ensures Remove(Set(store, key, value).after, key).after == store
  {
  }

  /** A second `set` of a key hides the first: the store is as if only the second had run. */
  lemma SetOverwrites(store: Store, key: string, first: Value, second: Value)
    requires !second.Function?
    ensures Set(Set(store, key, first).after, key, second).after == Set(store, key, second).after
  {
  }

  /** A plain key reads as null once it has been removed. */
  lemma GetAfterRemove(store: Store, key: string)
    requires '.' !in key
    ensures Get(Remove(store, key).after, key).result == Success(JNull)
  {
  }

  /** Every key, plain or dotted, reads as null after `clear`. */
  lemma GetAfterClear(store: Store, key: string)
    ensures Get(Clear(store).after, key).result == Success(JNull)
  {
  }

  /** After any calls at all, `clear` leaves an empty store. */
  lemma ClearAfterAnything(store: Store, calls: seq<StoreCall>)
    ensures ApplyAll(store, calls + [ClearAll]) == map[]
  {
    ApplyAllAppend(store, calls, [ClearAll]);
    assert ApplyAll(ApplyAll(store, calls), [ClearAll]) == ApplyAll(map[], []);
  }
}
