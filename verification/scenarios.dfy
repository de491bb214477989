/**
 * The unit tests' scenarios, plus three edge cases of the source, stated for every prior store. Each stored
 * value is a parameter pinned down by the `requires`, as in "given `{a: {b: 10}}` under
 * `test`".
 */
module Scenarios {
  import opened Wrappers
  import opened JsonValue
  import opened Decimal
  import opened JsonEncode
  import opened JsonDecode
  import opened Storage
  import opened DottedKey
  import opened Path
  import opened LocalstorageManager
  import opened ManagerProperties

  /** `[1,2,3]` is stored as its JSON text. */
  lemma StoresArrayAsJson(store: Store, v: Json)
    requires v == JArr([JNum(1), JNum(2), JNum(3)])
    ensures Set(store, "test", Data(v)).after["test"] == "[1,2,3]"
  {
    assert IntText(1) == "1" && IntText(2) == "2" && IntText(3) == "3";
    assert EncodeItems([JNum(3)]) == "3";
    assert EncodeItems([JNum(2), JNum(3)]) == "2,3";
    assert EncodeItems(v.items) == "1,2,3";
  }

  /** A string is stored as it is, without quotes. */
  lemma StoresString(store: Store, s: string)
    requires s == "abc"
    ensures Set(store, "test", Data(JStr(s))).after["test"] == s
  {
  }

  /** An object is stored as its `JSON.stringify` text. */
  lemma StoresObject(store: Store, v: Json)
    requires v == JObj([Member("prop", JStr("value")), Member("otherProp", JArr([JStr("another"), JStr("value")]))])
    ensures Set(store, "test", Data(v)).after["test"] == Encode(v)
  {
  }

  /** A number is stored as its decimal text. */
  lemma StoresNumber(store: Store, v: Json)
    requires v == JNum(1)
    ensures Set(store, "test", Data(v)).after["test"] == "1"
  {
    assert IntText(1) == "1";
  }

  /** `{a: 10, b: "Hello world!"}` stored under "test" reads back as itself. */
  lemma ReadsBackObject(store: Store, v: Json)
    requires v == JObj([Member("a", JNum(10)), Member("b", JStr("Hello world!"))])
    ensures Get(Set(store, "test", Data(v)).after, "test").result == Success(v)
  {
    assert Names(v.members) == ["a", "b"];
    assert WellFormed(v);
    GetAfterSet(store, "test", v);
  }

  /** A function is refused and nothing is written. */
  lemma RefusesFunction(store: Store)
    ensures Set(store, "test", Function) == Reply(Failure(UnsupportedValue), [], store)
  {
  }

  /** `{a: {b: 10}}` along `a.b` is 10. */
  lemma WalkNestedObject(v: Json, path: seq<string>)
    requires v == JObj([Member("a", JObj([Member("b", JNum(10))]))]) && path == ["a", "b"]
    ensures Resolve(v, path) == Success(JNum(10))
  {
    var inner := v.members[0].value;
    NotDigits("a");
    NotDigits("b");
    WalkInto(v, path, inner);
    assert path[1..] == ["b"];
    WalkInto(inner, path[1..], JNum(10));
    assert path[1..][1..] == [];
  }

  /** `{a: {b: 10}}` under "test": `get("test.a.b")` is 10. */
  lemma NestedObject(store: Store, v: Json)
    requires v == JObj([Member("a", JObj([Member("b", JNum(10))]))])
    ensures Get(Set(store, "test", Data(v)).after, "test.a.b").result == Success(JNum(10))
  {
    var path := ["a", "b"];
    assert Join(["test"] + path) == "test.a.b" by {
      assert Join(["a", "b"]) == "a.b";
    }
    assert WellFormed(v) by {
      assert WellFormed(v.members[0].value);
    }
    GetPathAfterSet(store, "test", v, path);
    WalkNestedObject(v, path);
  }

  /** `{a: [{b: 10}]}` along `a.<index>.b`: 10 at index 0, `null` at an index past the end. */
  lemma WalkNestedArray(v: Json, path: seq<string>)
    requires v == JObj([Member("a", JArr([JObj([Member("b", JNum(10))])]))])
    requires |path| == 3 && path[0] == "a" && path[2] == "b" && (path[1] == "0" || path[1] == "10")
    ensures Resolve(v, path) == if path[1] == "0" then Success(JNum(10)) else Success(JNull)
  {
    var arr := v.members[0].value;
    var leaf := arr.items[0];
    NotDigits("a");
    WalkInto(v, path, arr);
    var rest := path[1..];
    if path[1] == "0" {
      assert DigitsValue("0") == 0 by { assert "0"[..0] == ""; }
      assert IsDigits("0");
      WalkInto(arr, rest, leaf);
      NotDigits("b");
      WalkInto(leaf, rest[1..], JNum(10));
      assert rest[1..][1..] == [];
    } else {
      assert IsDigits("10");
      assert DigitsValue("10") == 10 by {
        assert "10"[..1] == "1" && "1"[..0] == "";
      }
      WalkStops(arr, rest);
    }
  }

  /** A nested value whose members are all well formed. */
  lemma NestedArrayWellFormed(v: Json)
    requires v == JObj([Member("a", JArr([JObj([Member("b", JNum(10))])]))])
    ensures WellFormed(v)
  {
    var arr := v.members[0].value;
    assert WellFormed(arr.items[0]);
    assert WellFormed(arr);
  }

  /** `{a: [{b: 10}]}` under "test": `get("test.a.0.b")` is 10. */
  lemma NestedArray(store: Store, v: Json)
    requires v == JObj([Member("a", JArr([JObj([Member("b", JNum(10))])]))])
    ensures Get(Set(store, "test", Data(v)).after, "test.a.0.b").result == Success(JNum(10))
  {
    var path := ["a", "0", "b"];
    assert Join(["test"] + path) == "test.a.0.b" by {
      assert Join(["0", "b"]) == "0.b";
      assert Join(["a", "0", "b"]) == "a.0.b";
    }
    NestedArrayWellFormed(v);
    GetPathAfterSet(store, "test", v, path);
    WalkNestedArray(v, path);
  }

  /** `{a: [{b: 10}]}` under "test": `get("test.a.10.b")` is `null`. */
  lemma IndexOutOfRange(store: Store, v: Json)
    requires v == JObj([Member("a", JArr([JObj([Member("b", JNum(10))])]))])
    ensures Get(Set(store, "test", Data(v)).after, "test.a.10.b").result == Success(JNull)
  {
    var path := ["a", "10", "b"];
    assert Join(["test"] + path) == "test.a.10.b" by {
      assert Join(["10", "b"]) == "10.b";
      assert Join(["a", "10", "b"]) == "a.10.b";
    }
    NestedArrayWellFormed(v);
    GetPathAfterSet(store, "test", v, path);
    WalkNestedArray(v, path);
  }

  /** `{c: false}` has no member `a`, so the walk along `a.f` ends with `null`. */
  lemma WalkMissingMember(v: Json, path: seq<string>)
    requires v == JObj([Member("c", JBool(false))]) && path == ["a", "f"]
    ensures Resolve(v, path) == Success(JNull)
  {
    NotDigits("a");
    assert PropertyKey(path[0]) == "a";
    assert Names(v.members) == ["c"];
    WalkStops(v, path);
  }

  /** `{c: false}` under "test": `get("test.a.f")` is `null`. */
  lemma MissingMember(store: Store, v: Json)
    requires v == JObj([Member("c", JBool(false))])
    ensures Get(Set(store, "test", Data(v)).after, "test.a.f").result == Success(JNull)
  {
    var path := ["a", "f"];
    assert Join(["test"] + path) == "test.a.f" by {
      assert Join(["a", "f"]) == "a.f";
    }
    assert WellFormed(v);
    GetPathAfterSet(store, "test", v, path);
    WalkMissingMember(v, path);
  }

  /** A member holding 0 is falsy, so the walk along `count` ends with `null`. */
  lemma WalkZero(v: Json, path: seq<string>)
    requires v == JObj([Member("count", JNum(0))]) && path == ["count"]
    ensures Resolve(v, path) == Success(JNull)
  {
    NotDigits("count");
    assert PropertyKey(path[0]) == "count";
    assert Lookup(v, path[0]) == Some(JNum(0));
    WalkStops(v, path);
  }

  /** A member holding `0` stops the walk just as a missing one does. */
  lemma ZeroStopsWalk(store: Store, v: Json)
    requires v == JObj([Member("count", JNum(0))])
    ensures Get(Set(store, "test", Data(v)).after, "test.count").result == Success(JNull)
  {
    var path := ["count"];
    assert Join(["test"] + path) == "test.count";
    assert WellFormed(v);
    GetPathAfterSet(store, "test", v, path);
    WalkZero(v, path);
  }

  /** `"01"` addresses element 1 of an array. */
  lemma LeadingZeroIndex(x: Json, y: Json)
    ensures Lookup(JArr([x, y]), "01") == Some(y)
  {
    assert IsDigits("01");
    assert DigitsValue("01") == 1 by {
      assert "01"[..1] == "0" && "0"[..0] == "";
    }
  }

  /** `get("....")` is `null` and makes no store call. */
  lemma AllDots(store: Store)
    ensures Get(store, "....") == Reply(Success(JNull), [], store)
  {
    LeadingDotGivesNull(store, "....");
  }

  /** A key never written reads as `null`. */
  lemma MissingKey(store: Store)
    requires "test" !in store
    ensures Get(store, "test").result == Success(JNull)
  {
  }

  /** The text `123` parses as the number 123. */
  lemma ParseDigits(s: string)
    requires s == "123"
    ensures ParseValue(s) == Some(Parsed(JNum(123), ""))
  {
    assert LeadingDigits(s) == 3;
    assert DigitsValue(s) == 123 by {
      assert s[..2] == "12" && "12"[..1] == "1" && "1"[..0] == "";
    }
    assert s[..3] == s && s[3..] == "";
    assert ParseNumber(s) == Some(Parsed(JNum(123), ""));
    assert SkipWhitespace(s) == s;
  }

  /** A stored JSON string of digits is read back as a number, not as the string. */
  lemma DigitStringReadsAsNumber(store: Store, s: string)
    requires s == "123"
    ensures Get(Set(store, "test", Data(JStr(s))).after, "test").result == Success(JNum(123))
  {
    var after := Set(store, "test", Data(JStr(s))).after;
    assert after["test"] == s;
    ParseDigits(s);
  }
}
