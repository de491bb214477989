/** The codec's round trip: `JSON.parse(JSON.stringify(v))` gives back `v`. */
module JsonCodec {
  import opened Wrappers
  import opened JsonValue
  import opened Decimal
  import opened JsonEncode
  import opened JsonDecode

  /** The characters a JSON text produced by `Encode` can start with. */
  predicate StartsValue(c: char) {
    c == 'n' || c == 't' || c == 'f' || c == '"' || c == '[' || c == '{' || c == '-' || IsDigit(c)
  }

  /** Every encoding is non-empty and starts a value (so it starts with no whitespace). */
  lemma EncodeStart(v: Json)
    ensures |Encode(v)| > 0 && StartsValue(Encode(v)[0])
  {
    match v
    case JStr(s) => assert Encode(v)[0] == '"';
    case JArr(items) => assert Encode(v)[0] == '[';
    case JObj(ms) => assert Encode(v)[0] == '{';
    case JNum(n) => assert Encode(v) == IntText(n);
    case _ =>
  }

  lemma HexDigitValue(d: nat)
    requires d < 16
    ensures HexValue(HexDigit(d)) == Some(d)
  {
  }

  /** A text that does not start with whitespace is left alone by SkipWhitespace. */
  lemma SkipNothing(s: string)
    requires s == [] || !IsWhitespace(s[0])
    ensures SkipWhitespace(s) == s
  {
  }

  /** The escaped form of one character is read back as that character. */
  lemma {:induction false} ParseEscapedChar(c: char, tail: string)
    ensures ParseStringBody(EscapeChar(c) + tail) ==
      match ParseStringBody(tail)
      case None => None
      case Some(Parsed(t, r)) => Some(Parsed([c] + t, r))
  {
    if c == '"' || c == '\\' || c == 8 as char || c == '\t' || c == '\n' || c == 12 as char || c == '\r' {
      ParseShortEscape(c, tail);
    } else if (c as int) < 0x20 {
      ParseUnicodeEscape(c, tail);
    } else {
      var e := EscapeChar(c) + tail;
      assert e[0] == c && e[1..] == tail;
    }
  }

  /** A two-character escape is read back as its character. */
  lemma ParseShortEscape(c: char, tail: string)
    requires c == '"' || c == '\\' || c == 8 as char || c == '\t' || c == '\n' || c == 12 as char || c == '\r'
    ensures ParseStringBody(EscapeChar(c) + tail) ==
      match ParseStringBody(tail)
      case None => None
      case Some(Parsed(t, r)) => Some(Parsed([c] + t, r))
  {
    var e := EscapeChar(c) + tail;
    assert e[0] == '\\';
    assert e[1..][1..] == tail;
    assert ParseEscape(e[1..]) == Some(Parsed(c, tail));
  }

  /** A `\u00xx` escape of a control character is read back as that character. */
  lemma ParseUnicodeEscape(c: char, tail: string)
    requires (c as int) < 0x20
    requires !(c == '"' || c == '\\' || c == 8 as char || c == '\t' || c == '\n' || c == 12 as char || c == '\r')
    ensures ParseStringBody(EscapeChar(c) + tail) ==
      match ParseStringBody(tail)
      case None => None
      case Some(Parsed(t, r)) => Some(Parsed([c] + t, r))
  {
    var hi := c as int / 16;
    var lo := c as int % 16;
    HexDigitValue(0);
    HexDigitValue(hi);
    HexDigitValue(lo);
    var e := EscapeChar(c) + tail;
    assert e == "\\u00" + [HexDigit(hi), HexDigit(lo)] + tail;
    var h := e[1..][1..];
    assert h[..4] == ['0', '0', HexDigit(hi), HexDigit(lo)];
    assert h[4..] == tail;
    assert ParseHex4(h) == Some(Parsed(c as int, tail));
    assert ParseEscape(e[1..]) == Some(Parsed(c, tail));
  }

  /** An escaped string followed by its closing quote is read back exactly. */
  lemma {:induction false} ParseEscapedString(s: string, rest: string)
    ensures ParseStringBody(Escape(s) + "\"" + rest) == Some(Parsed(s, rest))
  {
    var text := Escape(s) + "\"" + rest;
    if |s| == 0 {
      assert Escape(s) == [];
      assert text[0] == '"' && text[1..] == rest;
    } else {
      var tail := Escape(s[1..]) + "\"" + rest;
      ParseEscapedString(s[1..], rest);
      assert text == EscapeChar(s[0]) + tail;
      ParseEscapedChar(s[0], tail);
      assert [s[0]] + s[1..] == s;
    }
  }

  /** The decimal text of an integer, followed by a non-digit, is read back as that integer. */
  lemma ParseIntText(n: int, rest: string)
    requires rest == [] || !IsDigit(rest[0])
    ensures ParseNumber(IntText(n) + rest) == Some(Parsed(JNum(n), rest))
  {
    var text := IntText(n);
    if n < 0 {
      var digits := NatText(-n);
      assert text == "-" + digits;
      var s := text + rest;
      assert s[0] == '-' && s[1..] == digits + rest;
      ParseNegativeRun(s, digits, rest);
    } else {
      assert text == NatText(n);
      ParseDigitRun(text, rest);
    }
  }

  /** A digit run that is `0` alone or has no leading zero is scanned to its end. */
  lemma ScanDigitRun(digits: string, rest: string)
    requires IsDigits(digits) && digits[0] != '0'
    requires rest == [] || !IsDigit(rest[0])
    ensures LeadingDigits(digits + rest) == |digits|
    ensures (digits + rest)[..|digits|] == digits && (digits + rest)[|digits|..] == rest
  {
    LeadingDigitsOfRun(digits, rest);
  }

  /** A canonical digit run is read as its value. */
  lemma ParseDigitRun(digits: string, rest: string)
    requires Canonical(digits)
    requires rest == [] || !IsDigit(rest[0])
    ensures ParseNumber(digits + rest) == Some(Parsed(JNum(DigitsValue(digits)), rest))
  {
    if digits[0] == '0' {
      ParseZero(digits + rest, digits, rest);
    } else {
      ParsePositiveRun(digits + rest, digits, rest);
    }
  }

  /** A lone `0` is read as zero, whatever follows it. */
  lemma ParseZero(s: string, digits: string, rest: string)
    requires |digits| == 1 && digits[0] == '0'
    requires s == digits + rest
    ensures ParseNumber(s) == Some(Parsed(JNum(DigitsValue(digits)), rest))
  {
    assert s[0] == '0' && s[1..] == rest;
    assert digits[..0] == [];
  }

  /** A digit run without a leading zero is read as its value. */
  lemma ParsePositiveRun(s: string, digits: string, rest: string)
    requires IsDigits(digits) && digits[0] != '0'
    requires rest == [] || !IsDigit(rest[0])
    requires s == digits + rest
    ensures ParseNumber(s) == Some(Parsed(JNum(DigitsValue(digits)), rest))
  {
    assert s[0] == digits[0];
    ScanDigitRun(digits, rest);
    var n: int := DigitsValue(s[..|digits|]);
    assert n == DigitsValue(digits);
  }

  /** A minus sign before a digit other than `0` negates what the digits after it read as. */
  lemma ParseMinus(s: string)
    requires |s| > 1 && s[0] == '-' && IsDigit(s[1]) && s[1] != '0'
    ensures ParseNumber(s[1..]).Some? && ParseNumber(s).Some?
    ensures ParseNumber(s).value.value == JNum(-ParseNumber(s[1..]).value.value.n)
    ensures ParseNumber(s).value.rest == ParseNumber(s[1..]).value.rest
  {
  }

  /** A minus sign and a digit run without a leading zero are read as the negated value. */
  lemma ParseNegativeRun(s: string, digits: string, rest: string)
    requires IsDigits(digits) && digits[0] != '0'
    requires rest == [] || !IsDigit(rest[0])
    requires |s| > 1 && s[0] == '-' && s[1..] == digits + rest
    ensures ParseNumber(s) == Some(Parsed(JNum(-(DigitsValue(digits) as int)), rest))
  {
    var u := s[1..];
    assert u[0] == digits[0];
    ParsePositiveRun(u, digits, rest);
    ParseMinus(s);
  }

  /** ParseValue dispatches on the first character of a text that starts with no whitespace. */
  lemma ParseValueDispatch(s: string)
    requires |s| > 0 && StartsValue(s[0])
    ensures s[0] == '[' ==> ParseValue(s) == ParseArray(s[1..])
    ensures s[0] == '{' ==> ParseValue(s) == ParseObject(s[1..])
    ensures s[0] == '-' || IsDigit(s[0]) ==> ParseValue(s) == ParseNumber(s)
  {
    SkipNothing(s);
  }

  /** A quoted string at the front of a text is read as that string. */
  lemma ParseQuoted(str: string, rest: string)
    ensures ParseValue(Quote(str) + rest) == Some(Parsed(JStr(str), rest))
  {
    ReadName(str, rest);
  }

  /** `null`, `true` and `false` are read back. */
  lemma ParseKeyword(v: Json, rest: string)
    requires v.JNull? || v.JBool?
    ensures ParseValue(Encode(v) + rest) == Some(Parsed(v, rest))
  {
    var s := Encode(v) + rest;
    SkipNothing(s);
    if v.JNull? {
      assert s[..4] == "null" && s[4..] == rest;
    } else if v.b {
      assert s[..4] == "true" && s[4..] == rest;
    } else {
      assert s[..5] == "false" && s[5..] == rest;
    }
  }

  /** Encoding then parsing a well-formed value gives it back, leaving the text after it. */
  lemma {:induction false} ParseEncoded(v: Json, rest: string)
    requires WellFormed(v)
    requires rest == [] || !IsDigit(rest[0])
    ensures ParseValue(Encode(v) + rest) == Some(Parsed(v, rest))
    decreases v, 1
  {
    match v
    case JNull => ParseKeyword(v, rest);
    case JBool(_) => ParseKeyword(v, rest);
    case JNum(n) =>
      var s := IntText(n) + rest;
      EncodeStart(v);
      ParseValueDispatch(s);
      ParseIntText(n, rest);
    case JStr(str) =>
      ParseQuoted(str, rest);
    case JArr(items) =>
      var s := "[" + (EncodeItems(items) + "]" + rest);
      assert Encode(v) + rest == s;
      ParseValueDispatch(s);
      assert s[1..] == EncodeItems(items) + "]" + rest;
      ParseEncodedArray(items, rest);
    case JObj(ms) =>
      var s := "{" + (EncodeMembers(ms) + "}" + rest);
      assert Encode(v) + rest == s;
      ParseValueDispatch(s);
      assert s[1..] == EncodeMembers(ms) + "}" + rest;
      ParseEncodedObject(ms, rest);
  }

  /** A non-empty list of encoded elements starts with a value. */
  lemma EncodeItemsStart(items: seq<Json>)
    requires |items| > 0
    ensures |EncodeItems(items)| > 0 && StartsValue(EncodeItems(items)[0])
  {
    var first := Encode(items[0]);
    EncodeStart(items[0]);
    if |items| > 1 {
      var tail := "," + EncodeItems(items[1..]);
      assert EncodeItems(items) == first + tail;
      assert (first + tail)[0] == first[0];
    }
  }

  /** The inside of an encoded array, with its closing bracket, is read back as the array. */
  lemma {:induction false} ParseEncodedArray(items: seq<Json>, rest: string)
    requires forall x :: x in items ==> WellFormed(x)
    ensures ParseArray(EncodeItems(items) + "]" + rest) == Some(Parsed(JArr(items), rest))
    decreases items, 2
  {
    var inner := EncodeItems(items) + "]" + rest;
    if |items| == 0 {
      assert inner == "]" + rest;
      SkipNothing(inner);
      assert inner[1..] == rest;
    } else {
      EncodeItemsStart(items);
      assert inner[0] == EncodeItems(items)[0];
      SkipNothing(inner);
      ParseEncodedItems(items, rest);
    }
  }

  /** The inside of an encoded object, with its closing brace, is read back as the object. */
  lemma {:induction false} ParseEncodedObject(ms: seq<Member>, rest: string)
    requires DistinctNames(ms)
    requires forall m :: m in ms ==> WellFormed(m.value)
    ensures ParseObject(EncodeMembers(ms) + "}" + rest) == Some(Parsed(JObj(ms), rest))
    decreases ms, 2
  {
    var inner := EncodeMembers(ms) + "}" + rest;
    if |ms| == 0 {
      assert inner == "}" + rest;
      SkipNothing(inner);
      assert inner[1..] == rest;
    } else {
      assert inner[0] == '"' by {
        var first := EncodeMember(ms[0]);
        assert first[0] == '"';
        if |ms| > 1 {
          var tail := "," + EncodeMembers(ms[1..]);
          assert EncodeMembers(ms) == first + tail;
          assert (first + tail)[0] == first[0];
        }
      }
      SkipNothing(inner);
      ParseEncodedMembers(ms, rest);
      DedupeDistinct(ms);
    }
  }

  /** ParseElements, unfolded once on a value that has been read. */
  lemma ParseElementsUnfold(s: string, v: Json, r: string)
    requires ParseValue(s) == Some(Parsed(v, r))
    requires |r| > 0 && SkipWhitespace(r) == r
    ensures r[0] == ']' ==> ParseElements(s) == Some(Parsed([v], r[1..]))
    ensures r[0] == ',' && ParseElements(r[1..]).Some? ==>
      ParseElements(s) == Some(Parsed([v] + ParseElements(r[1..]).value.value, ParseElements(r[1..]).value.rest))
  {
  }

  /** Comma-separated encodings and the closing bracket are read back as the elements. */
  lemma {:induction false} ParseEncodedItems(items: seq<Json>, rest: string)
    requires |items| > 0
    requires forall x :: x in items ==> WellFormed(x)
    ensures ParseElements(EncodeItems(items) + "]" + rest) == Some(Parsed(items, rest))
    decreases items, 1
  {
    var x := items[0];
    var e := Encode(x);
    var after := if |items| == 1 then "]" + rest else "," + (EncodeItems(items[1..]) + "]" + rest);
    assert EncodeItems(items) + "]" + rest == e + after;
    ParseEncoded(x, after);
    SkipNothing(after);
    ParseElementsUnfold(e + after, x, after);
    if |items| == 1 {
      assert after[1..] == rest;
      assert [x] == items;
    } else {
      assert after[1..] == EncodeItems(items[1..]) + "]" + rest;
      ParseEncodedItems(items[1..], rest);
      assert [x] + items[1..] == items;
    }
  }

  /** ParseMembers, unfolded once on a member whose name and value have been read. */
  lemma ParseMembersUnfold(s: string, name: string, r: string, v: Json, r3: string)
    requires |s| > 0 && s[0] == '"' && SkipWhitespace(s) == s
    requires ParseStringBody(s[1..]) == Some(Parsed(name, r))
    requires |r| > 0 && r[0] == ':' && SkipWhitespace(r) == r
    requires ParseValue(r[1..]) == Some(Parsed(v, r3))
    requires |r3| > 0 && SkipWhitespace(r3) == r3
    ensures r3[0] == '}' ==> ParseMembers(s) == Some(Parsed([Member(name, v)], r3[1..]))
    ensures r3[0] == ',' && ParseMembers(r3[1..]).Some? ==>
      ParseMembers(s) == Some(Parsed([Member(name, v)] + ParseMembers(r3[1..]).value.value, ParseMembers(r3[1..]).value.rest))
  {
  }

  /** One encoded member, then `after`: its name, colon and value are read, leaving `after`. */
  lemma {:induction false} ReadMember(m: Member, after: string)
    requires WellFormed(m.value)
    requires |after| > 0 && (after[0] == '}' || after[0] == ',')
    ensures
      var s := EncodeMember(m) + after;
      var colon := ":" + Encode(m.value) + after;
      && |s| > 0 && s[0] == '"' && SkipWhitespace(s) == s
      && ParseStringBody(s[1..]) == Some(Parsed(m.name, colon))
      && |colon| > 0 && colon[0] == ':' && SkipWhitespace(colon) == colon
      && ParseValue(colon[1..]) == Some(Parsed(m.value, after))
      && SkipWhitespace(after) == after
    decreases m, 0
  {
    var colon := ":" + Encode(m.value) + after;
    var s := EncodeMember(m) + after;
    assert s == Quote(m.name) + colon;
    ReadName(m.name, colon);
    ReadColonValue(m.value, after, colon);
  }

  /** A quoted name in front of `colon` is read as the name, leaving `colon`. */
  lemma ReadName(name: string, colon: string)
    ensures var s := Quote(name) + colon;
      |s| > 0 && s[0] == '"' && SkipWhitespace(s) == s && ParseStringBody(s[1..]) == Some(Parsed(name, colon))
  {
    var s := Quote(name) + colon;
    assert s[0] == '"';
    SkipNothing(s);
    assert s[1..] == Escape(name) + "\"" + colon;
    ParseEscapedString(name, colon);
  }

  /** A colon and an encoded value in front of `after` are read as the value, leaving `after`. */
  lemma {:induction false} ReadColonValue(v: Json, after: string, colon: string)
    requires WellFormed(v)
    requires |after| > 0 && (after[0] == '}' || after[0] == ',')
    requires colon == ":" + Encode(v) + after
    ensures |colon| > 0 && colon[0] == ':' && SkipWhitespace(colon) == colon
    ensures ParseValue(colon[1..]) == Some(Parsed(v, after))
    ensures SkipWhitespace(after) == after
    decreases v, 2
  {
    SkipNothing(colon);
    assert colon[1..] == Encode(v) + after;
    ParseEncoded(v, after);
    SkipNothing(after);
  }

  /** Comma-separated encoded members and the closing brace are read back as the members. */
  lemma {:induction false} ParseEncodedMembers(ms: seq<Member>, rest: string)
    requires |ms| > 0
    requires forall m :: m in ms ==> WellFormed(m.value)
    ensures ParseMembers(EncodeMembers(ms) + "}" + rest) == Some(Parsed(ms, rest))
    decreases ms, 1
  {
    var m := ms[0];
    var after := if |ms| == 1 then "}" + rest else "," + (EncodeMembers(ms[1..]) + "}" + rest);
    var s := EncodeMember(m) + after;
    var colon := ":" + Encode(m.value) + after;
    assert EncodeMembers(ms) + "}" + rest == s;
    ReadMember(m, after);
    ParseMembersUnfold(s, m.name, colon, m.value, after);
    if |ms| == 1 {
      assert after[1..] == rest;
      assert [m] == ms;
    } else {
      assert after[1..] == EncodeMembers(ms[1..]) + "}" + rest;
      ParseEncodedMembers(ms[1..], rest);
      assert [m] + ms[1..] == ms;
    }
  }

  /** `JSON.parse(JSON.stringify(v))` is `v` for every well-formed value. */
  lemma RoundTrip(v: Json)
    requires WellFormed(v)
    ensures Decode(Encode(v)) == Some(v)
  {
    ParseEncoded(v, []);
    assert Encode(v) + [] == Encode(v);
  }
}
