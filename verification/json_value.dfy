/** JSON values as `JSON.parse` produces them and `JSON.stringify` consumes them. */
module JsonValue {
  import opened Wrappers

  /** One named member of a JSON object; objects keep their members in insertion order. */
  datatype Member = Member(name: string, value: Json)

  /** A JSON value. Numbers are integers (see README, "Left out"). */
  datatype Json =
    | JNull
    | JBool(b: bool)
    | JNum(n: int)
    | JStr(s: string)
    | JArr(items: seq<Json>)
    | JObj(members: seq<Member>)

  /**
   * JavaScript truthiness of a JSON value: `null`, `false`, `0` and `""` are falsy, and every
   * array and object is truthy, even an empty one.
   */
  predicate Truthy(v: Json)
    ensures v.JArr? || v.JObj? ==> Truthy(v)
    ensures v.JNull? ==> !Truthy(v)
  {
    match v
    case JNull => false
    case JBool(b) => b
    case JNum(n) => n != 0
    case JStr(s) => s != ""
    case JArr(_) => true
    case JObj(_) => true
  }

  /** The falsy values, listed: exactly these four make the path traversal stop. */
  lemma FalsyValues(v: Json)
    ensures !Truthy(v) <==> v == JNull || v == JBool(false) || v == JNum(0) || v == JStr("")
  {
  }

  /** The names of an object's members, in order. */
  function Names(ms: seq<Member>): (r: seq<string>)
    ensures |r| == |ms|
    ensures forall i :: 0 <= i < |ms| ==> r[i] == ms[i].name
  {
    if |ms| == 0 then [] else [ms[0].name] + Names(ms[1..])
  }

  /** No two members share a name: what every object built by `JSON.parse` satisfies. */
  predicate DistinctNames(ms: seq<Member>) {
    forall i, j :: 0 <= i < j < |ms| ==> ms[i].name != ms[j].name
  }

  /** Every object nested anywhere in `v` has distinct member names. */
  predicate WellFormed(v: Json) {
    match v
    case JArr(items) => forall x :: x in items ==> WellFormed(x)
    case JObj(ms) => DistinctNames(ms) && forall m :: m in ms ==> WellFormed(m.value)
    case _ => true
  }

  /** The property `name` of an object: the value of its first member so named, if any. */
  function FieldValue(ms: seq<Member>, name: string): (r: Option<Json>)
    ensures r.None? <==> name !in Names(ms)
    ensures r.Some? ==> Member(name, r.value) in ms
  {
    if |ms| == 0 then None
    else if ms[0].name == name then Some(ms[0].value)
    else
      assert Names(ms) == [ms[0].name] + Names(ms[1..]);
      FieldValue(ms[1..], name)
  }

  /**
   * Assigns property `name` the way `JSON.parse` does while reading an object: an existing
   * member keeps its position and takes the new value, a new name is appended.
   */
  function Upsert(ms: seq<Member>, name: string, v: Json): (r: seq<Member>)
    ensures name !in Names(ms) ==> r == ms + [Member(name, v)]
    ensures forall m :: m in r ==> m in ms || m == Member(name, v)
  {
    if |ms| == 0 then [Member(name, v)]
    else if ms[0].name == name then [Member(name, v)] + ms[1..]
    else
      assert Names(ms) == [ms[0].name] + Names(ms[1..]);
      [ms[0]] + Upsert(ms[1..], name, v)
  }

  /** Upsert adds `name` to the member names and changes no other name. */
  lemma {:induction false} UpsertNames(ms: seq<Member>, name: string, v: Json)
    ensures forall n :: n in Names(Upsert(ms, name, v)) <==> n in Names(ms) || n == name
  {
    var r := Upsert(ms, name, v);
    if |ms| == 0 {
    } else if ms[0].name == name {
      assert Names(r) == Names(ms);
    } else {
      UpsertNames(ms[1..], name, v);
      assert Names(ms) == [ms[0].name] + Names(ms[1..]);
      assert r[1..] == Upsert(ms[1..], name, v);
      assert Names(r) == [ms[0].name] + Names(r[1..]);
    }
  }

  /** Distinct names, read off one member at a time. */
  lemma DistinctCons(m: Member, ms: seq<Member>)
    ensures DistinctNames([m] + ms) <==> m.name !in Names(ms) && DistinctNames(ms)
  {
    var all := [m] + ms;
    assert all[1..] == ms;
    if DistinctNames(all) {
      forall i, j | 0 <= i < j < |ms| ensures ms[i].name != ms[j].name {
        assert all[i + 1] == ms[i] && all[j + 1] == ms[j];
      }
      forall k | 0 <= k < |ms| ensures Names(ms)[k] != m.name {
        assert all[0] == m && all[k + 1] == ms[k];
        assert all[0].name != all[k + 1].name;
      }
    }
    if m.name !in Names(ms) && DistinctNames(ms) {
      forall i, j | 0 <= i < j < |all| ensures all[i].name != all[j].name {
        if i == 0 {
          assert Names(ms)[j - 1] == all[j].name;
        } else {
          assert all[i] == ms[i - 1] && all[j] == ms[j - 1];
        }
      }
    }
  }

  /** Upsert never introduces a repeated name. */
  lemma {:induction false} UpsertDistinct(ms: seq<Member>, name: string, v: Json)
    requires DistinctNames(ms)
    ensures DistinctNames(Upsert(ms, name, v))
  {
    var r := Upsert(ms, name, v);
    if |ms| == 0 {
    } else if ms[0].name == name {
      assert forall i :: 0 <= i < |r| ==> r[i].name == ms[i].name;
    } else {
      var tail := Upsert(ms[1..], name, v);
      assert ms == [ms[0]] + ms[1..];
      DistinctCons(ms[0], ms[1..]);
      UpsertDistinct(ms[1..], name, v);
      UpsertNames(ms[1..], name, v);
      assert r == [ms[0]] + tail;
      DistinctCons(ms[0], tail);
    }
  }

  /** After Upsert, `name` holds `v` and every other property is as before. */
  lemma {:induction false} UpsertFieldValue(ms: seq<Member>, name: string, v: Json, other: string)
    ensures FieldValue(Upsert(ms, name, v), other) == if other == name then Some(v) else FieldValue(ms, other)
  {
    if |ms| > 0 && ms[0].name != name {
      UpsertFieldValue(ms[1..], name, v, other);
      var r := Upsert(ms, name, v);
      assert r[1..] == Upsert(ms[1..], name, v);
    }
  }

  /** The value of the LAST member called `name`: the one `JSON.parse` keeps for a repeated name. */
  function LastValue(ms: seq<Member>, name: string): (r: Option<Json>)
  {
    if |ms| == 0 then None
    else if ms[|ms| - 1].name == name then Some(ms[|ms| - 1].value)
    else LastValue(ms[..|ms| - 1], name)
  }

  /** The object `JSON.parse` builds from the members as written, repeated names and all. */
  function Dedupe(ms: seq<Member>): (r: seq<Member>)
    ensures DistinctNames(r)
    ensures forall m :: m in r ==> m in ms
    ensures forall name :: FieldValue(r, name) == LastValue(ms, name)
  {
    if |ms| == 0 then []
    else
      var last := ms[|ms| - 1];
      var init := Dedupe(ms[..|ms| - 1]);
      UpsertDistinct(init, last.name, last.value);
      forall name ensures FieldValue(Upsert(init, last.name, last.value), name) == LastValue(ms, name) {
        UpsertFieldValue(init, last.name, last.value, name);
      }
      Upsert(init, last.name, last.value)
  }

  /** Members with distinct names are read back exactly as written. */
  lemma {:induction false} DedupeDistinct(ms: seq<Member>)
    requires DistinctNames(ms)
    ensures Dedupe(ms) == ms
  {
    if |ms| > 0 {
      var init := ms[..|ms| - 1];
      var last := ms[|ms| - 1];
      DedupeDistinct(init);
      assert init + [last] == ms;
    }
  }
}
