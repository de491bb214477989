/**
 * The traversal loop of `getNestedProperty`: each segment is looked up on the current value,
 * and a missing or falsy member ends the walk with `null`.
 */
module Path {
  import opened Wrappers
  import opened JsonValue
  import opened Decimal

  /**
   * The property a segment addresses: an all-digit segment goes through `Number(segment)`, so it
   * names the decimal text of its value (`"01"` names `"1"`); any other segment names itself.
   */
  function PropertyKey(seg: string): (k: string)
    ensures IsDigits(seg) ==> IsDigits(k) && DigitsValue(k) == DigitsValue(seg)
    ensures IsDigits(seg) ==> Canonical(k)
    ensures Canonical(seg) ==> k == seg
    ensures !IsDigits(seg) ==> k == seg
  {
    if IsDigits(seg) then
      var k := NatText(DigitsValue(seg));
      assert Canonical(seg) ==> k == seg by {
        if Canonical(seg) {
          NatTextOfCanonical(seg);
        }
      }
      k
    else seg
  }

  /**
   * `current[key]` on a parsed value: an array answers only in-range all-digit segments, an
   * object answers its named properties, and a primitive answers nothing. Whatever it answers
   * is an own element or member of `current`: nothing comes from the prototype chain.
   */
  function Lookup(current: Json, seg: string): (r: Option<Json>)
    ensures r.Some? ==> current.JArr? || current.JObj?
    ensures r.Some? ==>
      || (current.JArr? && r.value in current.items)
      || (current.JObj? && Member(PropertyKey(seg), r.value) in current.members)
    ensures current.JObj? ==> (r.None? <==> PropertyKey(seg) !in Names(current.members))
    ensures current.JArr? ==> (r.Some? <==> IsDigits(seg) && DigitsValue(seg) < |current.items|)
    ensures current.JArr? && r.Some? ==> r.value == current.items[DigitsValue(seg)]
    ensures current.JObj? ==> r == FieldValue(current.members, PropertyKey(seg))
  {
    match current
    case JArr(items) =>
      if IsDigits(seg) && DigitsValue(seg) < |items| then Some(items[DigitsValue(seg)]) else None
    case JObj(ms) => FieldValue(ms, PropertyKey(seg))
    case _ => None
  }

  /**
   * The loop of `getNestedProperty` as a recursion: the value reached from `current` along
   * `segs`; `null` once a member is missing or falsy; `TypeError` when a segment is read off
   * `null`.
   */
  function Resolve(current: Json, segs: seq<string>): (r: Result<Json, Error>)
    ensures r.Failure? ==> r.error == TypeError && current == JNull && |segs| > 0
    ensures |segs| > 0 && r.Success? ==> r.value == JNull || Truthy(r.value)
    decreases |segs|
  {
    if |segs| == 0 then Success(current)
    else if current.JNull? then Failure(TypeError)
    else
      match Lookup(current, segs[0])
      case None => Success(JNull)
      case Some(member) => if Truthy(member) then Resolve(member, segs[1..]) else Success(JNull)
  }

  /** One step of the walk: a truthy member found under the first segment. */
  lemma WalkInto(current: Json, segs: seq<string>, member: Json)
    requires current != JNull && |segs| > 0
    requires Lookup(current, segs[0]) == Some(member) && Truthy(member)
    ensures Resolve(current, segs) == Resolve(member, segs[1..])
  {
  }

  /** The walk ends at a falsy or missing member. */
  lemma WalkStops(current: Json, segs: seq<string>)
    requires current != JNull && |segs| > 0
    requires Lookup(current, segs[0]).None? || !Truthy(Lookup(current, segs[0]).value)
    ensures Resolve(current, segs) == Success(JNull)
  {
  }

  /** The source's `for ... of` loop with its `break`, computing what Resolve computes. */
  method ResolveLoop(root: Json, segs: seq<string>) returns (r: Result<Json, Error>)
    ensures r == Resolve(root, segs)
  {
    var current := root;
    var i := 0;
    while i < |segs|
      invariant 0 <= i <= |segs|
      invariant Resolve(root, segs) == Resolve(current, segs[i..])
      invariant i > 0 ==> Truthy(current)
    {
      ghost var remaining := segs[i..];
      assert remaining[0] == segs[i] && remaining[1..] == segs[i + 1..];
      if current.JNull? {
        return Failure(TypeError);
      }
      var member := Lookup(current, segs[i]);
      if member.None? || !Truthy(member.value) {
        WalkStops(current, remaining);
        current := JNull;
        break;
      }
      WalkInto(current, remaining, member.value);
      current := member.value;
      i := i + 1;
    }
    assert Resolve(root, segs) == Success(current) by {
      if i == |segs| {
        assert segs[i..] == [];
      }
    }
    return Success(current);
  }

  /**
   * The walk described without the loop: `chain[i+1]` is the member `segs[i]` names on
   * `chain[i]`, and every member on the way is truthy.
   */
  ghost predicate IsTrail(current: Json, segs: seq<string>, chain: seq<Json>) {
    && |chain| == |segs| + 1
    && chain[0] == current
    && forall i :: 0 <= i < |segs| ==> Step(chain, segs, i)
  }

  /** Step `i` of a trail: segment `i` names a truthy member, the next value of the chain. */
  ghost predicate Step(chain: seq<Json>, segs: seq<string>, i: int) {
    && 0 <= i < |segs|
    && i + 1 < |chain|
    && Lookup(chain[i], segs[i]) == Some(chain[i + 1])
    && Truthy(chain[i + 1])
  }

  /** Along a trail, Resolve reaches the trail's end. */
  lemma {:induction false} TrailResolves(current: Json, segs: seq<string>, chain: seq<Json>)
    requires IsTrail(current, segs, chain)
    ensures Resolve(current, segs) == Success(chain[|segs|])
    decreases |segs|
  {
    if |segs| > 0 {
      assert Step(chain, segs, 0);
      var rest := chain[1..];
      forall i | 0 <= i < |segs| - 1
        ensures Step(rest, segs[1..], i)
      {
        assert Step(chain, segs, i + 1);
        assert rest[i] == chain[i + 1] && rest[i + 1] == chain[i + 2];
      }
      assert IsTrail(chain[1], segs[1..], rest);
      TrailResolves(chain[1], segs[1..], rest);
    }
  }

  /** A non-null answer along a non-empty path was reached by a trail of truthy members. */
  lemma ResolvedHasTrail(current: Json, segs: seq<string>)
    requires |segs| > 0
    requires Resolve(current, segs).Success? && Resolve(current, segs).value != JNull
    ensures exists chain :: IsTrail(current, segs, chain) && chain[|segs|] == Resolve(current, segs).value
  {
    var chain := ReachedTrail(current, segs);
  }

  /** The trail a non-null answer was reached by, built one segment at a time. */
  lemma {:induction false} ReachedTrail(current: Json, segs: seq<string>) returns (chain: seq<Json>)
    requires Resolve(current, segs).Success? && Resolve(current, segs).value != JNull
    ensures IsTrail(current, segs, chain) && chain[|segs|] == Resolve(current, segs).value
    decreases |segs|
  {
    if |segs| == 0 {
      chain := [current];
      EmptyTrail(current, segs);
    } else {
      FirstStep(current, segs);
      var member := Lookup(current, segs[0]).value;
      var tail := ReachedTrail(member, segs[1..]);
      PrependStep(current, segs, tail);
      chain := [current] + tail;
      assert chain[|segs|] == tail[|segs| - 1];
    }
  }

  /** The empty path has the one-value trail. */
  lemma EmptyTrail(current: Json, segs: seq<string>)
    requires |segs| == 0
    ensures IsTrail(current, segs, [current])
  {
  }

  /** A non-null answer along a non-empty path starts with a truthy member under the first segment. */
  lemma FirstStep(current: Json, segs: seq<string>)
    requires |segs| > 0
    requires Resolve(current, segs).Success? && Resolve(current, segs).value != JNull
    ensures current != JNull && Lookup(current, segs[0]).Some? && Truthy(Lookup(current, segs[0]).value)
    ensures Resolve(current, segs) == Resolve(Lookup(current, segs[0]).value, segs[1..])
  {
  }

  /** A first step in front of a trail along the remaining segments makes a trail. */
  lemma PrependStep(current: Json, segs: seq<string>, tail: seq<Json>)
    requires |segs| > 0 && |tail| > 0
    requires Lookup(current, segs[0]) == Some(tail[0]) && Truthy(tail[0])
    requires IsTrail(tail[0], segs[1..], tail)
    ensures IsTrail(current, segs, [current] + tail)
  {
    var chain := [current] + tail;
    forall i | 0 <= i < |segs|
      ensures Step(chain, segs, i)
    {
      if i > 0 {
        assert Step(tail, segs[1..], i - 1);
        assert chain[i] == tail[i - 1] && chain[i + 1] == tail[i] && segs[i] == segs[1..][i - 1];
      }
    }
  }

  /**
   * A path resolves in two stages: after a non-empty first part, a `null` stays `null` (later
   * segments are never looked at) and a member carries on along the second part.
   */
  lemma {:induction false} ResolveAppend(current: Json, first: seq<string>, second: seq<string>)
    requires |first| > 0
    ensures Resolve(current, first + second) ==
      match Resolve(current, first)
      case Failure(e) => Failure(e)
      case Success(v) => if v == JNull then Success(JNull) else Resolve(v, second)
    decreases |first|
  {
    var path := first + second;
    assert path[0] == first[0];
    if !current.JNull? {
      var member := Lookup(current, first[0]);
      if member.Some? && Truthy(member.value) && |first| > 1 {
        assert path[1..] == first[1..] + second;
        ResolveAppend(member.value, first[1..], second);
      } else if member.Some? && Truthy(member.value) {
        assert path[1..] == second;
      }
    }
  }

  /** A missing or falsy member at segment `k` makes the first `k + 1` segments resolve to `null`. */
  lemma {:induction false} StopsAt(current: Json, segs: seq<string>, k: nat, chain: seq<Json>)
    requires k < |segs|
    requires current != JNull
    requires IsTrail(current, segs[..k], chain)
    requires Lookup(chain[k], segs[k]).None? || !Truthy(Lookup(chain[k], segs[k]).value)
    ensures Resolve(current, segs[..k + 1]) == Success(JNull)
  {
    var stop := segs[..k + 1];
    if k == 0 {
      assert stop == [segs[0]];
    } else {
      TrailResolves(current, segs[..k], chain);
      assert stop == segs[..k] + [segs[k]];
      ResolveAppend(current, segs[..k], [segs[k]]);
      assert Step(chain, segs[..k], k - 1);
      assert Resolve(chain[k], [segs[k]]) == Success(JNull);
    }
  }

  /**
   * Once a member on the way is missing or falsy the answer is `null`, whatever segments
   * come after it.
   */
  lemma {:induction false} ShortCircuit(current: Json, segs: seq<string>, k: nat, chain: seq<Json>, later: seq<string>)
    requires k < |segs|
    requires current != JNull
    requires IsTrail(current, segs[..k], chain)
    requires Lookup(chain[k], segs[k]).None? || !Truthy(Lookup(chain[k], segs[k]).value)
    ensures Resolve(current, segs) == Success(JNull)
    ensures Resolve(current, segs[..k + 1] + later) == Success(JNull)
  {
    StopsAt(current, segs, k, chain);
    var stop := segs[..k + 1];
    assert stop + segs[k + 1..] == segs;
    ResolveAppend(current, stop, segs[k + 1..]);
    ResolveAppend(current, stop, later);
  }
}
