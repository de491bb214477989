# simple-storage-manager: `LocalstorageManager` in Dafny

This project models `LocalstorageManager`, a small TypeScript class that wraps the browser's
`localStorage`. It models the class's four public operations:

- `set` refuses a function. Otherwise it writes the value under the key: a string is written
  raw, and anything whose `typeof` is `'object'` is written as `JSON.stringify` text.
- `get` reads a plain key and parses the text with `JSON.parse`. A missing or empty entry
  gives `null`. Text that does not parse is returned as it is.
- A key containing a dot goes to `getNestedProperty`. It splits the key on `.` and reads the
  first segment from the store. It parses that entry, then walks the parsed value one segment
  at a time. An all-digit segment is used as a number. A missing or falsy member ends the walk
  with `null`.
- `remove` and `clear` pass straight through to the store.

The store is a `map<string, string>`. Each operation is a pure function from the store to a
`Reply`, which holds three things:

- what the call returned or threw;
- the `localStorage` calls it made;
- the store afterwards, which is always the calls applied to the store before.

JSON values are a datatype. Objects are ordered member lists, because `JSON.stringify`
follows insertion order; integer-like names are the exception (see "Left out"). Numbers are
integers.

`JSON.stringify` and `JSON.parse` are modelled as a real encoder and decoder:

- The encoder uses the escape table of section 24.5.2.2 (`QuoteJSONString`) of ECMA-262.
- The decoder is a recursive-descent parser for the grammar of RFC 8259, restricted to
  integers.
- A duplicated member name keeps its first position and takes the last value, as `JSON.parse`
  does for names that are not integer-like.
- `JsonCodec.RoundTrip` proves that decoding the encoding of any well-formed value gives the
  value back. The read-back of every non-string value rests on it.

Modules, in dependency order:

| module | holds |
|---|---|
| Wrappers | `Option`, `Result` and the three errors: refused function, `SyntaxError`, `TypeError` |
| JsonValue | the JSON datatype, truthiness, member lookup, duplicate-name merging |
| Decimal | digit strings, their values, and number-to-text |
| DottedKey | `split('.')` and its inverse, `join('.')` |
| JsonEncode | `JSON.stringify` |
| JsonDecode | `JSON.parse` |
| JsonCodec | the round-trip proof |
| Storage | the store, its four calls, and their effect |
| Path | the segment walk of `getNestedProperty`, as a recursion and as the source's loop |
| LocalstorageManager | `set`, `get`, `getNestedProperty`, `remove`, `clear` |
| ManagerProperties | how the operations combine |
| Scenarios | the unit tests' scenarios, plus three edge cases of the source, for every prior store |

## Model

| member | source | states |
|---|---|---|
| LocalstorageManager.Set | src/Localstorage/LocalstorageManager.ts:35-43 | fails exactly for a function, and then writes nothing; otherwise makes one `setItem` of the stored text under the key as given, and leaves every other key unchanged |
| LocalstorageManager.TextForm | src/Localstorage/LocalstorageManager.ts:39-41 | `String(value)` of a primitive: a string is itself, `undefined` is "undefined", and a number or boolean reads the same as its `JSON.stringify` text |
| LocalstorageManager.StoredText | src/Localstorage/LocalstorageManager.ts:39-42 | a string is stored raw, every other JSON value as its `JSON.stringify` text, and `undefined` as the text "undefined" |
| LocalstorageManager.StoredTextDecodes | src/Localstorage/LocalstorageManager.ts:41 | the text stored for any well-formed non-string value parses back to that value |
| JsonEncode.Encode | src/Localstorage/LocalstorageManager.ts:41 | `JSON.stringify` text is never empty; a string, array or object comes out between its quotes, brackets or braces, and a number starts with its sign or first digit; `JsonCodec.RoundTrip` is its inverse |
| LocalstorageManager.Get | src/Localstorage/LocalstorageManager.ts:53-65 | only reads the store, with at most one call; on a plain key, a missing or empty entry gives null, text that parses gives the parsed value, and text that does not parse gives the text itself |
| LocalstorageManager.GetNestedProperty | src/Localstorage/LocalstorageManager.ts:75-102 | an empty first segment gives null with no store call; otherwise one `getItem` of the first segment, and a missing or empty entry gives null; an entry that parses gives what the remaining segments resolve to in the parsed value; throws `SyntaxError` exactly when that entry is non-empty and does not parse; throws `TypeError` only when the entry parses to null; any answer is null or truthy |
| LocalstorageManager.Remove | src/Localstorage/LocalstorageManager.ts:14-16 | the key is gone afterwards, every other key is unchanged, and a missing key leaves the store as it was |
| LocalstorageManager.Clear | src/Localstorage/LocalstorageManager.ts:23-25 | makes one `clear` call, which leaves no entry |
| Path.PropertyKey | src/Localstorage/LocalstorageManager.ts:93 | an all-digit segment names the property spelled by the canonical text of its value, without leading zeros (a canonical segment names itself); any other segment names itself |
| Path.Lookup | src/Localstorage/LocalstorageManager.ts:93 | `current[key]` answers only with an own element of an array or an own member of an object, never from the prototype chain; an object misses exactly when no member has the segment's property key; an array answers exactly the all-digit segments below its length |
| Path.Resolve | src/Localstorage/LocalstorageManager.ts:91-101 | fails only with `TypeError`, and only when a non-empty path starts at null; on a non-empty path every answer is null or truthy |
| Path.ResolveLoop | src/Localstorage/LocalstorageManager.ts:91-99 | the loop with its `break` computes what the recursive walk computes |
| Path.TrailResolves | src/Localstorage/LocalstorageManager.ts:91-99 | along any chain of truthy members that the segments name, the walk reaches the end of the chain |
| Path.ResolvedHasTrail | src/Localstorage/LocalstorageManager.ts:91-99 | conversely, every non-null answer was reached along such a chain |
| Path.ReachedTrail | src/Localstorage/LocalstorageManager.ts:91-99 | for any path, the empty one included, a non-null answer comes with the chain of truthy members that leads to it, ending in that answer |
| Path.FirstStep | src/Localstorage/LocalstorageManager.ts:93-98 | a non-null answer starts with a truthy member under the first segment, and is the answer from that member on |
| Path.ResolveAppend | src/Localstorage/LocalstorageManager.ts:91-99 | walking a joined path walks the first part; a null stops there, and any other member carries on along the second part |
| Path.StopsAt | src/Localstorage/LocalstorageManager.ts:93-96 | a missing or falsy member at segment k makes the first k+1 segments give null |
| Path.ShortCircuit | src/Localstorage/LocalstorageManager.ts:93-96 | after a missing or falsy member the answer is null, whatever segments follow |
| DottedKey.Split | src/Localstorage/LocalstorageManager.ts:76 | there is one more segment than there are dots, and no segment holds a dot |
| DottedKey.JoinSplit | src/Localstorage/LocalstorageManager.ts:76 | joining the segments with dots gives the key back |
| DottedKey.SplitJoin | src/Localstorage/LocalstorageManager.ts:76 | splitting dot-free parts joined with dots gives the parts back |
| DottedKey.FirstSegmentIsPrefix | src/Localstorage/LocalstorageManager.ts:76-77 | in a dotted key, the first segment is the text before the first dot, so it is shorter than the key |
| JsonValue.Truthy | src/Localstorage/LocalstorageManager.ts:93 | `null` is falsy, and every array and object is truthy, even an empty one |
| JsonValue.FalsyValues | src/Localstorage/LocalstorageManager.ts:93 | the falsy JSON values are exactly null, false, 0 and the empty string |
| JsonValue.FieldValue | src/Localstorage/LocalstorageManager.ts:93 | a lookup by name misses exactly when no member has the name, and a hit is a member of the object |
| JsonValue.Upsert | src/Localstorage/LocalstorageManager.ts:89 | a new name is appended at the end; otherwise no member other than the new one appears |
| JsonValue.UpsertNames | src/Localstorage/LocalstorageManager.ts:89 | the names after an upsert are the old names plus the upserted one |
| JsonValue.UpsertDistinct | src/Localstorage/LocalstorageManager.ts:89 | an upsert keeps member names distinct |
| JsonValue.UpsertFieldValue | src/Localstorage/LocalstorageManager.ts:89 | after an upsert the upserted name reads the new value, and every other name reads what it read before |
| JsonValue.Dedupe | src/Localstorage/LocalstorageManager.ts:89 | the parsed members have distinct names, each is one of the written members, and each name reads the last value written for it |
| JsonValue.DedupeDistinct | src/Localstorage/LocalstorageManager.ts:89 | members with distinct names are kept exactly as written |
| Decimal.NatText | src/Localstorage/LocalstorageManager.ts:93 | the text of a natural number is a digit string with that value and no leading zero |
| Decimal.IntText | src/Localstorage/LocalstorageManager.ts:41 | the text of an integer is its digits with that value, without a leading zero except for 0 itself, after a minus sign when it is negative |
| Decimal.DigitTestMatchesScanner | src/Localstorage/LocalstorageManager.ts:93 | the `/^\d+$/` test passes exactly for a non-empty string that the digit scanner of `JSON.parse` reads to its end |
| Decimal.DigitsValue | src/Localstorage/LocalstorageManager.ts:93 | `Number` of a run of k digits is below 10^k, and at least 10^(k-1) when the run does not start with 0 |
| Decimal.NatTextOfCanonical | src/Localstorage/LocalstorageManager.ts:93 | a digit string without a leading zero is the text of its own value |
| Decimal.LeadingDigits | src/Localstorage/LocalstorageManager.ts:61 | the number scanner stops at the first non-digit, and everything before it is a digit |
| Decimal.LeadingDigitsOfRun | src/Localstorage/LocalstorageManager.ts:61 | a run of digits followed by a non-digit is scanned to its end |
| JsonDecode.ParseValue | src/Localstorage/LocalstorageManager.ts:61 | a parse consumes input, and what it yields is well formed: no object has duplicate member names |
| JsonDecode.Decode | src/Localstorage/LocalstorageManager.ts:89 | `JSON.parse` yields well-formed values, and a parsed string is shorter than its text |
| JsonCodec.ParseEscapedChar | src/Localstorage/LocalstorageManager.ts:41 | every character's escape parses back to that character |
| JsonCodec.ParseShortEscape | src/Localstorage/LocalstorageManager.ts:41 | the two-character escapes of quote, backslash, backspace, tab, line feed, form feed and carriage return parse back to their characters |
| JsonCodec.ParseUnicodeEscape | src/Localstorage/LocalstorageManager.ts:41 | the `\u00xx` escape of any other control character parses back to that character |
| JsonCodec.ParseEscapedString | src/Localstorage/LocalstorageManager.ts:41 | an escaped string and its closing quote parse back to the string, leaving what follows |
| JsonCodec.ParseIntText | src/Localstorage/LocalstorageManager.ts:41 | the text of an integer, followed by a non-digit or nothing, parses back to that integer |
| JsonCodec.ParseDigitRun | src/Localstorage/LocalstorageManager.ts:41 | `0` alone, or digits without a leading zero, parse to their value |
| JsonCodec.ParseNegativeRun | src/Localstorage/LocalstorageManager.ts:41 | a minus sign and digits without a leading zero parse to the negated value |
| JsonCodec.ParsePositiveRun | src/Localstorage/LocalstorageManager.ts:41 | digits without a leading zero, followed by a non-digit or nothing, parse to their value, leaving what follows |
| JsonCodec.ParseEncoded | src/Localstorage/LocalstorageManager.ts:41 | the encoding of a well-formed value, followed by any text that does not start with a digit, parses back to the value, leaving that text |
| JsonCodec.ParseEncodedArray | src/Localstorage/LocalstorageManager.ts:41 | an encoded array parses back to its elements |
| JsonCodec.ParseEncodedItems | src/Localstorage/LocalstorageManager.ts:41 | comma-separated encoded elements and the closing bracket parse back to the elements |
| JsonCodec.ParseEncodedObject | src/Localstorage/LocalstorageManager.ts:41 | an encoded object with distinct names parses back to its members, in order |
| JsonCodec.ParseEncodedMembers | src/Localstorage/LocalstorageManager.ts:41 | comma-separated encoded members and the closing brace parse back to the members |
| JsonCodec.RoundTrip | src/Localstorage/LocalstorageManager.ts:41 | `JSON.parse(JSON.stringify(v))` is `v` for every well-formed value |
| Storage.ReadAfter | tests/jest/LocalstorageManager.test.ts:17-28 | after `setItem(k, v)` `getItem(k)` gives `v`; after `removeItem(k)` or `clear()` it gives nothing; every other key, and every key after a `getItem`, reads as before |
| Storage.ReadOnlyKeepsStore | src/Localstorage/LocalstorageManager.ts:58 | `getItem` calls leave the store unchanged |
| Storage.ApplyAllAppend | tests/jest/LocalstorageManager.test.ts:17-28 | running two sequences of calls one after the other is running them joined |
| ManagerProperties.GetAfterSet | src/Localstorage/LocalstorageManager.ts:35-65 | on a plain key, `get` after `set` gives back every well-formed object, array, null, number or boolean |
| ManagerProperties.GetAfterSetString | src/Localstorage/LocalstorageManager.ts:41-63 | a string comes back as itself exactly when it is non-empty and is not JSON text |
| ManagerProperties.GetAfterSetEmptyString | src/Localstorage/LocalstorageManager.ts:61 | an empty string comes back as null |
| ManagerProperties.GetAfterSetUndefined | src/Localstorage/LocalstorageManager.ts:39-63 | `undefined` comes back as the string "undefined" |
| ManagerProperties.UndefinedIsNotJson | src/Localstorage/LocalstorageManager.ts:60-63 | the text "undefined" does not parse, so `get` falls back to returning it as a string |
| ManagerProperties.JoinedPath | src/Localstorage/LocalstorageManager.ts:54-77 | a root and dot-free segments joined with dots make a dotted key that splits back into them |
| ManagerProperties.GetPathAfterSet | src/Localstorage/LocalstorageManager.ts:75-101 | `get` of a dotted path after `set` of its root gives what the path resolves to in the stored value |
| ManagerProperties.GetPathThroughNull | src/Localstorage/LocalstorageManager.ts:89-98 | a dotted path into a stored null throws `TypeError` |
| ManagerProperties.DottedSetInvisibleToGet | src/Localstorage/LocalstorageManager.ts:39-83 | `set` under a dotted key cannot be seen by `get` of the same key |
| ManagerProperties.LeadingDotGivesNull | src/Localstorage/LocalstorageManager.ts:76-81 | a key starting with a dot gives null and makes no store call |
| ManagerProperties.SameNumberSameMember | src/Localstorage/LocalstorageManager.ts:93 | segments that denote the same number address the same element or member |
| ManagerProperties.RemoveIdempotent | src/Localstorage/LocalstorageManager.ts:14-16 | removing a key twice leaves the store that removing it once does |
| ManagerProperties.GetAfterRemove | src/Localstorage/LocalstorageManager.ts:14-61 | a plain key reads as null once it has been removed |
| ManagerProperties.GetAfterClear | src/Localstorage/LocalstorageManager.ts:23-87 | after `clear`, every key, plain or dotted, reads as null |
| ManagerProperties.RemoveUndoesSet | src/Localstorage/LocalstorageManager.ts:14-43 | removing a key that was absent before a `set` of it gives back the store from before the `set` |
| ManagerProperties.SetOverwrites | src/Localstorage/LocalstorageManager.ts:35-43 | a second successful `set` of a key leaves the store the second `set` alone would leave |
| ManagerProperties.ClearAfterAnything | src/Localstorage/LocalstorageManager.ts:23-25 | after any calls at all, `clear` leaves an empty store |
| Scenarios.StoresArrayAsJson | tests/jest/LocalstorageManager.test.ts:40-52 | `[1,2,3]` is stored as the text `[1,2,3]` |
| Scenarios.StoresString | tests/jest/LocalstorageManager.test.ts:54-65 | the string "abc" is stored as the text `abc`, without quotes |
| Scenarios.StoresObject | tests/jest/LocalstorageManager.test.ts:67-78 | an object with a string and an array member is stored as its `JSON.stringify` text |
| Scenarios.StoresNumber | tests/jest/LocalstorageManager.test.ts:80-91 | the number 1 is stored as the text `1` |
| Scenarios.ReadsBackObject | tests/jest/LocalstorageManager.test.ts:106-117 | `{a: 10, b: "Hello world!"}` stored under "test" is read back equal to itself |
| Scenarios.RefusesFunction | tests/jest/LocalstorageManager.test.ts:93-102 | a function is refused and the store is unchanged |
| Scenarios.NestedObject | tests/jest/LocalstorageManager.test.ts:119-131 | `{a: {b: 10}}` under "test" gives 10 for "test.a.b" |
| Scenarios.NestedArray | tests/jest/LocalstorageManager.test.ts:133-145 | `{a: [{b: 10}]}` under "test" gives 10 for "test.a.0.b" |
| Scenarios.MissingKey | tests/jest/LocalstorageManager.test.ts:147-156 | a key never written gives null |
| Scenarios.MissingMember | tests/jest/LocalstorageManager.test.ts:158-170 | `{c: false}` under "test" gives null for "test.a.f" |
| Scenarios.IndexOutOfRange | tests/jest/LocalstorageManager.test.ts:172-184 | `{a: [{b: 10}]}` under "test" gives null for "test.a.10.b" |
| Scenarios.AllDots | tests/jest/LocalstorageManager.test.ts:186-195 | "...." gives null and makes no store call |
| Scenarios.ZeroStopsWalk | src/Localstorage/LocalstorageManager.ts:93-96 | a member holding 0 ends the walk with null, like a missing one |
| Scenarios.LeadingZeroIndex | src/Localstorage/LocalstorageManager.ts:93 | the segment "01" addresses array element 1 |
| Scenarios.DigitStringReadsAsNumber | src/Localstorage/LocalstorageManager.ts:41-61 | the string "123", once stored, is read back as the number 123 |

## Left out

- The global `localStorage` object is a store value that each operation takes and returns.
  Quota errors and events from other tabs are not modelled.
- The `console.log` in the walk is not modelled, because it has no effect on the result.
- The type parameter `T` of `get` is not modelled, because it is erased at run time.
- JsonDecode.ParseValue: numbers are integers. Stored text with a fraction or an exponent
  anywhere in it does not parse in this model. A plain `get` then returns the raw text where
  JavaScript returns the parsed value (a float, or an object or array holding one). A dotted
  `get` throws `SyntaxError` where JavaScript walks the parsed value: on `{"p":1.5,"n":"x"}`
  stored under `k`, `get("k.n")` gives "x" in JavaScript.
- JsonDecode.ParseNumber: an integer above 2^53 is kept exact, where `JSON.parse` rounds it to
  the nearest double.
- Decimal.IntText: does not switch to exponent notation at 1e21, and does not round beyond
  2^53 as `String(number)` does.
- Path.PropertyKey: does not model `Number(segment)` losing precision above 2^53, or turning
  into "Infinity", for very long digit segments.
- Path.Lookup: an array's own `length` property is not modelled. On `{"a":[{"b":10}]}`,
  `get("test.a.length")` gives 1 in JavaScript and `null` in the model, which answers only
  in-range all-digit segments on an array.
- Path.Lookup: a lookup on a primitive finds nothing in the model. JavaScript finds a string's
  characters and `length`, and the methods of a primitive's prototype.
- Path.Lookup: on an object or array, an inherited name (`toString`, `constructor`) finds
  nothing in the model, where JavaScript finds the prototype's property.
- JavaScript keeps integer-like property names (such as "1") first, in ascending order, in
  every object. That includes objects built by `JSON.parse`: `{"b":1,"1":2}` parses to keys
  `1, b` in JavaScript and to members `b, 1` in the model. The model keeps written order for all
  names; lookups by name are unaffected, only the order of members differs.
- `undefined`, functions and symbols nested inside an object or array are not modelled; they
  are dropped or turned into `null` by `JSON.stringify`. A top-level `undefined` is modelled.
- Symbol and bigint values passed to `set` are not modelled. `toJSON` methods and class
  instances are not modelled either: an object value is plain data.
- JsonDecode.ParseValue: an escape of a lone UTF-16 surrogate is rejected, because a Dafny
  `char` cannot hold one. `JSON.parse` accepts it.
- Scenarios.StoresNumber: `setItem` stores `String(value)`, so the number 1 is stored as "1".
  The unit tests' mock stores the raw value instead (a number stays a number, and the test
  expects 1). The model follows the browser.
