/** `JSON.stringify` on JSON values: compact output, members in order, strings escaped. */
module JsonEncode {
  import opened JsonValue
  import opened Decimal

  /** A lower-case hexadecimal digit, as `JSON.stringify` writes them. */
  function HexDigit(d: nat): (c: char)
    requires d < 16
  {
    if d < 10 then ('0' as int + d) as char else ('a' as int + d - 10) as char
  }

  /**
   * The text standing for one character inside a JSON string: the two-character escapes for
   * quote, backslash, backspace, tab, line feed, form feed and carriage return, `\u00xx` for
   * the other control characters, and the character itself otherwise.
   */
  function EscapeChar(c: char): (r: string)
    ensures |r| > 0
  {
    if c == '"' then "\\\""
    else if c == '\\' then "\\\\"
    else if c == 8 as char then "\\b"
    else if c == '\t' then "\\t"
    else if c == '\n' then "\\n"
    else if c == 12 as char then "\\f"
    else if c == '\r' then "\\r"
    else if (c as int) < 0x20 then "\\u00" + [HexDigit(c as int / 16), HexDigit(c as int % 16)]
    else [c]
  }

  function Escape(s: string): string {
    if |s| == 0 then "" else EscapeChar(s[0]) + Escape(s[1..])
  }

  /** A JSON string literal. */
  function Quote(s: string): string {
    "\"" + Escape(s) + "\""
  }

  /**
   * `JSON.stringify(v)`: never empty; strings, arrays and objects come out between their
   * quotes, brackets and braces, and a number starts with its sign or first digit.
   */
  function Encode(v: Json): (r: string)
    ensures |r| > 0
    ensures v.JStr? ==> r[0] == '"' && r[|r| - 1] == '"'
    ensures v.JArr? ==> r[0] == '[' && r[|r| - 1] == ']'
    ensures v.JObj? ==> r[0] == '{' && r[|r| - 1] == '}'
    ensures v.JNum? ==> r[0] == '-' || IsDigit(r[0])
    decreases v
  {
    match v
    case JNull => "null"
    case JBool(b) => if b then "true" else "false"
    case JNum(n) => IntText(n)
    case JStr(s) => Quote(s)
    case JArr(items) => "[" + EncodeItems(items) + "]"
    case JObj(ms) => "{" + EncodeMembers(ms) + "}"
  }

  /** Array elements separated by commas. */
  function EncodeItems(items: seq<Json>): string
    decreases items
  {
    if |items| == 0 then ""
    else if |items| == 1 then Encode(items[0])
    else Encode(items[0]) + "," + EncodeItems(items[1..])
  }

  /** `"name":value` members separated by commas. */
  function EncodeMembers(ms: seq<Member>): string
    decreases ms
  {
    if |ms| == 0 then ""
    else if |ms| == 1 then EncodeMember(ms[0])
    else EncodeMember(ms[0]) + "," + EncodeMembers(ms[1..])
  }

  function EncodeMember(m: Member): string
    decreases m
  {
    Quote(m.name) + ":" + Encode(m.value)
  }
}
