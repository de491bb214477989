/**
 * `JSON.parse` on the integer subset of JSON: whitespace between tokens, the three literals,
 * integers, escaped strings, arrays, and objects whose repeated names keep the last value.
 */
module JsonDecode {
  import opened Wrappers
  import opened JsonValue
  import opened Decimal

  /** A value read from the front of a text, and the text after it. */
  datatype Parsed<+T> = Parsed(value: T, rest: string)

  /** The four characters JSON allows between tokens. */
  predicate IsWhitespace(c: char) {
    c == ' ' || c == '\t' || c == '\n' || c == '\r'
  }

  function SkipWhitespace(s: string): (r: string)
    ensures |r| <= |s|
    ensures r == [] || !IsWhitespace(r[0])
  {
    if |s| > 0 && IsWhitespace(s[0]) then SkipWhitespace(s[1..]) else s
  }

  /** The value of one hexadecimal digit, in either case. */
  function HexValue(c: char): (r: Option<nat>)
    ensures r.Some? ==> r.value < 16
  {
    if '0' <= c <= '9' then Some(c as int - '0' as int)
    else if 'a' <= c <= 'f' then Some(c as int - 'a' as int + 10)
    else if 'A' <= c <= 'F' then Some(c as int - 'A' as int + 10)
    else None
  }

  /** Four hexadecimal digits: one UTF-16 code unit. */
  function ParseHex4(s: string): (r: Option<Parsed<nat>>)
    ensures r.Some? ==> r.value.value < 0x10000 && |s| >= 4 && r.value.rest == s[4..]
  {
    if |s| < 4 then None
    else
      match (HexValue(s[0]), HexValue(s[1]), HexValue(s[2]), HexValue(s[3]))
      case (Some(a), Some(b), Some(c), Some(d)) =>
        Some(Parsed(((a * 16 + b) * 16 + c) * 16 + d, s[4..]))
      case _ => None
  }

  /** The code point of a surrogate pair. */
  function CombineSurrogates(high: nat, low: nat): (c: char)
    requires 0xD800 <= high < 0xDC00 && 0xDC00 <= low < 0xE000
  {
    var h := high - 0xD800;
    var l := low - 0xDC00;
    assert h * 0x400 <= 0x3FF * 0x400;
    (0x10000 + h * 0x400 + l) as char
  }

  /**
   * The character an escape stands for; `s` is the text after the backslash. A `\u` escape of a
   * high surrogate must be followed by a `\u` escape of a low surrogate.
   */
  function ParseEscape(s: string): (r: Option<Parsed<char>>)
    ensures r.Some? ==> |r.value.rest| < |s|
  {
    if |s| == 0 then None
    else if s[0] == '"' then Some(Parsed('"', s[1..]))
    else if s[0] == '\\' then Some(Parsed('\\', s[1..]))
    else if s[0] == '/' then Some(Parsed('/', s[1..]))
    else if s[0] == 'b' then Some(Parsed(8 as char, s[1..]))
    else if s[0] == 'f' then Some(Parsed(12 as char, s[1..]))
    else if s[0] == 'n' then Some(Parsed('\n', s[1..]))
    else if s[0] == 'r' then Some(Parsed('\r', s[1..]))
    else if s[0] == 't' then Some(Parsed('\t', s[1..]))
    else if s[0] == 'u' then
      match ParseHex4(s[1..])
      case None => None
      case Some(Parsed(u, r)) =>
        if 0xD800 <= u < 0xDC00 then
          if |r| >= 2 && r[0] == '\\' && r[1] == 'u' then
            match ParseHex4(r[2..])
            case None => None
            case Some(Parsed(low, r2)) =>
              if 0xDC00 <= low < 0xE000 then Some(Parsed(CombineSurrogates(u, low), r2)) else None
          else None
        else if 0xDC00 <= u < 0xE000 then None
        else Some(Parsed(u as char, r))
    else None
  }

  /**
   * The characters of a string literal up to and including its closing quote; `s` is the text
   * after the opening quote. Raw control characters are refused.
   */
  function ParseStringBody(s: string): (r: Option<Parsed<string>>)
    ensures r.Some? ==> |r.value.value| + |r.value.rest| < |s|
    decreases |s|
  {
    if |s| == 0 then None
    else if s[0] == '"' then Some(Parsed("", s[1..]))
    else if s[0] == '\\' then
      match ParseEscape(s[1..])
      case None => None
      case Some(Parsed(c, r)) =>
        match ParseStringBody(r)
        case None => None
        case Some(Parsed(t, r2)) => Some(Parsed([c] + t, r2))
    else if (s[0] as int) < 0x20 then None
    else
      match ParseStringBody(s[1..])
      case None => None
      case Some(Parsed(t, r2)) => Some(Parsed([s[0]] + t, r2))
  }

  /** An integer: an optional `-`, then `0` alone or a digit run not starting with `0`. */
  function ParseNumber(s: string): (r: Option<Parsed<Json>>)
    ensures r.Some? ==> |r.value.rest| < |s| && r.value.value.JNum?
  {
    var neg := |s| > 0 && s[0] == '-';
    var u := if neg then s[1..] else s;
    if |u| == 0 || !IsDigit(u[0]) then None
    else if u[0] == '0' then Some(Parsed(JNum(0), u[1..]))
    else
      var k := LeadingDigits(u);
      var n: int := DigitsValue(u[..k]);
      Some(Parsed(JNum(if neg then -n else n), u[k..]))
  }

  /** A keyword: `null`, `true` or `false`. */
  function ParseLiteral(s: string, word: string, v: Json): (r: Option<Parsed<Json>>)
    requires |word| > 0
    ensures r.Some? ==> r.value.value == v && |r.value.rest| < |s|
  {
    if |s| >= |word| && s[..|word|] == word then Some(Parsed(v, s[|word|..])) else None
  }

  /** One JSON value after optional whitespace; the text after it is returned untouched. */
  function ParseValue(s: string): (r: Option<Parsed<Json>>)
    ensures r.Some? ==> |r.value.rest| < |s|
    ensures r.Some? ==> WellFormed(r.value.value)
    ensures r.Some? && r.value.value.JStr? ==> |r.value.value.s| + |r.value.rest| < |s|
    decreases |s|, 0
  {
    var t := SkipWhitespace(s);
    if |t| == 0 then None
    else if t[0] == 'n' then ParseLiteral(t, "null", JNull)
    else if t[0] == 't' then ParseLiteral(t, "true", JBool(true))
    else if t[0] == 'f' then ParseLiteral(t, "false", JBool(false))
    else if t[0] == '"' then
      match ParseStringBody(t[1..])
      case None => None
      case Some(Parsed(str, r)) => Some(Parsed(JStr(str), r))
    else if t[0] == '[' then ParseArray(t[1..])
    else if t[0] == '{' then ParseObject(t[1..])
    else if t[0] == '-' || IsDigit(t[0]) then ParseNumber(t)
    else None
  }

  /** The elements of an array and its closing bracket; `s` is the text after the opening one. */
  function ParseArray(s: string): (r: Option<Parsed<Json>>)
    ensures r.Some? ==> |r.value.rest| < |s|
    ensures r.Some? ==> r.value.value.JArr? && WellFormed(r.value.value)
    decreases |s|, 2
  {
    var t := SkipWhitespace(s);
    if |t| > 0 && t[0] == ']' then Some(Parsed(JArr([]), t[1..]))
    else
      match ParseElements(t)
      case None => None
      case Some(Parsed(items, r)) => Some(Parsed(JArr(items), r))
  }

  /** One or more comma-separated values, then the closing bracket. */
  function ParseElements(s: string): (r: Option<Parsed<seq<Json>>>)
    ensures r.Some? ==> |r.value.rest| < |s|
    ensures r.Some? ==> forall x :: x in r.value.value ==> WellFormed(x)
    decreases |s|, 1
  {
    match ParseValue(s)
    case None => None
    case Some(Parsed(v, r)) =>
      var t := SkipWhitespace(r);
      if |t| == 0 then None
      else if t[0] == ']' then Some(Parsed([v], t[1..]))
      else if t[0] == ',' then
        match ParseElements(t[1..])
        case None => None
        case Some(Parsed(vs, r2)) => Some(Parsed([v] + vs, r2))
      else None
  }

  /**
   * The members of an object and its closing brace; `s` is the text after the opening one.
   * A repeated name keeps its first position and its last value.
   */
  function ParseObject(s: string): (r: Option<Parsed<Json>>)
    ensures r.Some? ==> |r.value.rest| < |s|
    ensures r.Some? ==> r.value.value.JObj? && WellFormed(r.value.value)
    decreases |s|, 2
  {
    var t := SkipWhitespace(s);
    if |t| > 0 && t[0] == '}' then Some(Parsed(JObj([]), t[1..]))
    else
      match ParseMembers(t)
      case None => None
      case Some(Parsed(ms, r)) => Some(Parsed(JObj(Dedupe(ms)), r))
  }

  /** One or more comma-separated `"name": value` members, then the closing brace. */
  function ParseMembers(s: string): (r: Option<Parsed<seq<Member>>>)
    ensures r.Some? ==> |r.value.rest| < |s|
    ensures r.Some? ==> forall m :: m in r.value.value ==> WellFormed(m.value)
    decreases |s|, 1
  {
    var t := SkipWhitespace(s);
    if |t| == 0 || t[0] != '"' then None
    else
      match ParseStringBody(t[1..])
      case None => None
      case Some(Parsed(name, r)) =>
        var t2 := SkipWhitespace(r);
        if |t2| == 0 || t2[0] != ':' then None
        else
          match ParseValue(t2[1..])
          case None => None
          case Some(Parsed(v, r3)) =>
            var t3 := SkipWhitespace(r3);
            if |t3| == 0 then None
            else if t3[0] == '}' then Some(Parsed([Member(name, v)], t3[1..]))
            else if t3[0] == ',' then
              match ParseMembers(t3[1..])
              case None => None
              case Some(Parsed(ms, r4)) => Some(Parsed([Member(name, v)] + ms, r4))
            else None
  }

  /**
   * `JSON.parse(s)`: one value surrounded by optional whitespace and nothing else. `None` is the
   * `SyntaxError` it throws.
   */
  function Decode(s: string): (r: Option<Json>)
    ensures r.Some? ==> WellFormed(r.value)
    ensures r.Some? && r.value.JStr? ==> |r.value.s| < |s|
  {
    match ParseValue(s)
    case None => None
    case Some(Parsed(v, rest)) => if SkipWhitespace(rest) == [] then Some(v) else None
  }
}
