/** `key.split('.')`: the segments of a dotted key, and the inverse join. */
module DottedKey {

  /** How many `.` characters `s` holds. */
  function Dots(s: string): nat {
    if |s| == 0 then 0 else (if s[0] == '.' then 1 else 0) + Dots(s[1..])
  }

  /**
   * `s.split('.')`: one segment more than there are dots, none of them holding a dot; empty
   * segments stay (`"...."` gives five empty segments).
   */
  function Split(s: string): (r: seq<string>)
    ensures |r| == Dots(s) + 1
    ensures forall i :: 0 <= i < |r| ==> '.' !in r[i]
  {
    if |s| == 0 then [""]
    else
      var t := Split(s[1..]);
      if s[0] == '.' then [""] + t
      else [[s[0]] + t[0]] + t[1..]
  }

  /** `parts.join('.')`. */
  function Join(parts: seq<string>): string
    requires |parts| > 0
  {
    if |parts| == 1 then parts[0] else parts[0] + "." + Join(parts[1..])
  }

  /** Joining the segments gives back the key. */
  lemma {:induction false} JoinSplit(s: string)
    ensures Join(Split(s)) == s
  {
    if |s| > 0 {
      var t := Split(s[1..]);
      JoinSplit(s[1..]);
      if s[0] == '.' {
        assert ([""] + t)[1..] == t;
        assert Join([""] + t) == "" + "." + Join(t);
        assert s == [s[0]] + s[1..];
      } else {
        var r := [[s[0]] + t[0]] + t[1..];
        assert r[1..] == t[1..];
        if |t| == 1 {
          assert Join(r) == [s[0]] + t[0];
        } else {
          assert Join(t) == t[0] + "." + Join(t[1..]);
          assert Join(r) == ([s[0]] + t[0]) + "." + Join(t[1..]);
        }
        assert s == [s[0]] + s[1..];
      }
    }
  }

  /** Splitting a join of dot-free segments gives back the segments. */
  lemma {:induction false} SplitJoin(parts: seq<string>)
    requires |parts| > 0
    requires forall i :: 0 <= i < |parts| ==> '.' !in parts[i]
    ensures Split(Join(parts)) == parts
  {
    if |parts| == 1 {
      SplitDotFree(parts[0]);
    } else {
      SplitJoin(parts[1..]);
      SplitAfterSegment(parts[0], Join(parts[1..]));
      assert parts == [parts[0]] + parts[1..];
    }
  }

  /** A dot-free string is a single segment. */
  lemma {:induction false} SplitDotFree(p: string)
    requires '.' !in p
    ensures Split(p) == [p]
  {
    if |p| > 0 {
      assert '.' !in p[1..] by {
        assert forall i :: 0 <= i < |p[1..]| ==> p[1..][i] == p[i + 1];
      }
      SplitDotFree(p[1..]);
      assert p == [p[0]] + p[1..];
    }
  }

  /** A dot-free segment, a dot, then anything: the segment is the first piece. */
  lemma {:induction false} SplitAfterSegment(p: string, rest: string)
    requires '.' !in p
    ensures Split(p + "." + rest) == [p] + Split(rest)
  {
    var s := p + "." + rest;
    if |p| == 0 {
      assert s == "." + rest;
      assert s[1..] == rest;
    } else {
      assert '.' !in p[1..] by {
        assert forall i :: 0 <= i < |p[1..]| ==> p[1..][i] == p[i + 1];
      }
      SplitAfterSegment(p[1..], rest);
      assert s[1..] == p[1..] + "." + rest;
      assert s[0] == p[0] && s[0] != '.';
      assert p == [p[0]] + p[1..];
    }
  }

  /**
   * A key with a dot has a first segment that is a proper prefix of it, ended by that dot;
   * so the first segment is never the whole key.
   */
  lemma {:induction false} FirstSegmentIsPrefix(s: string)
    requires '.' in s
    ensures |Split(s)[0]| < |s|
    ensures s[..|Split(s)[0]|] == Split(s)[0]
    ensures s[|Split(s)[0]|] == '.'
  {
    if s[0] != '.' {
      assert '.' in s[1..] by {
        var i :| 0 <= i < |s| && s[i] == '.';
        assert s[1..][i - 1] == '.';
      }
      FirstSegmentIsPrefix(s[1..]);
    }
  }

  /** A key that starts with a dot (`".a"`, `"...."`) has an empty first segment. */
  lemma LeadingDotEmptyRoot(s: string)
    requires |s| > 0 && s[0] == '.'
    ensures Split(s)[0] == ""
  {
  }
}
