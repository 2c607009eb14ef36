# eQSL card server helpers in Dafny

This project models the four pure helpers at the top of `server.js`, the
Node server that renders eQSL contact cards:

- `buildContext` packs a flat record into the Cloudinary context string
  `k1=v1|k2=v2|...`. Each value is percent-encoded with
  `encodeURIComponent`, and a falsy value is written as the empty string.
- `parseContext` reads such a payload back. It accepts the raw string or
  an object that carries it under `custom.entry`. It splits the string at
  every `|` and splits each piece at its first `=`. It decodes the value
  with `decodeURIComponent` and assigns the pair into a fresh object, so a
  later key overrides an earlier one. A value that fails to decode throws,
  and that aborts the whole parse.
- `wrapText` lays the whitespace-separated words of a caption greedily on
  lines of at most `max` UTF-16 code units (32 by default), except that a
  single word longer than `max` gets a line of its own, and joins the
  lines with newlines.
- `escapeXml` replaces `&`, then `<`, then `>` by their entities before the
  text goes into an SVG overlay.

The modules follow that split:

| file | module | models |
|---|---|---|
| `wrappers.dfy` | `Wrappers` | `Option`, the result of an operation that can throw |
| `decoded_text.dfy` | `DecodedText` | the step both decoders share: a character in front of a decoded rest |
| `js_string.dfy` | `JsString` | `length` (UTF-16 units), `trim`, `split`, `join`, `split(/\s+/)`, `String(n)` |
| `uri_component.dfy` | `UriComponent` | `encodeURIComponent` and `decodeURIComponent`, with UTF-8 escapes as ECMA-262 section 19.2.6 defines them |
| `context_codec.dfy` | `ContextCodec` | `buildContext`, `parseContext` and the JavaScript values they handle |
| `context_examples.dfy` | `ContextExamples` | payload shapes of `parseContext`, each stated for every key and value |
| `text_wrap.dfy` | `TextWrap` | `wrapText` as a method with the source's loop, proved against a declarative greedy layout |
| `xml_escape.dfy` | `XmlEscape` | `escapeXml` as the source's three replacements, proved against a per-character escaper and an unescaper |

Behaviour the model keeps from `server.js`:

- `String(v)` of an object value with an own `toString` property throws a
  `TypeError`, because a value read from a record holds no function to
  call. `buildContext` then throws, which is `None` here.
- A `decodeURIComponent` failure is not caught. One malformed segment makes
  `parseContext` throw, which is `None` here.
- A payload that is already an object, with no string under `custom.entry`,
  parses as `{}`. It is not passed through.
- `acc["__proto__"] = v` on a plain object does not create a key, so a
  `__proto__` segment is dropped.
- Only `&`, `<` and `>` are escaped. Quotes stay as they are.
- A blank caption wraps to `""`.
- When the first word is longer than `max`, the loop pushes the empty line
  it started with, so the wrapped text begins with a newline.

## Model

| member | source | states |
|---|---|---|
| ContextCodec.BuildContext | server.js:34-38 | No contract of its own; BuildContextThrows and BuildContextSegments state what it returns. |
| ContextCodec.BuildContextThrows | server.js:34-38 | buildContext throws exactly when some value is an object with an own `toString` property, for any keys. An object without entries gives `""`. |
| ContextCodec.ConversionThrows | server.js:36 | No contract of its own: the TypeError `String(v)` throws for an object whose own `toString` is not a function. BuildContextThrows and OwnToStringThrows state its effect on buildContext. |
| ContextCodec.ToText | server.js:36 | No contract of its own. A number's text is IntToDecimal, stated by IntToDecimalValue and NatToDecimalValue; FieldText states when the text is empty. |
| ContextCodec.FieldText | server.js:36 | The text that is encoded for a value (its conversion, or `""` when falsy) is empty exactly when the value is falsy: every truthy value converts to a non-empty text. |
| ContextCodec.Segment | server.js:36 | No contract of its own: one `k=` segment with the encoded field text; BuildContextSegments and SegmentParses state it. |
| ContextCodec.ContextString | server.js:35-37 | No contract of its own: the segments joined with pipes; BuildContextSegments and BuiltSegmentsParse state it. |
| ContextCodec.BuildContextSegments | server.js:34-38 | For keys free of the pipe separator: buildContext throws exactly when some value is an object with an own `toString` property. No entries give `""`. Otherwise, when nothing throws, the output splits at pipes into exactly one segment per entry, in order. Each segment is the key, `=`, and an encoding free of pipes and `=` that decodes to the value's text. A falsy value gives the bare `k=`. |
| ContextCodec.SegmentParses | server.js:36 | A segment built from a key without `=` reads back that key, and its value decodes to the text of `v`, or to `""` when `v` is falsy. |
| ContextCodec.BuiltSegmentsParse | server.js:34-47 | The pipe-separated pieces of the text buildContext returns when nothing throws are as many as the entries, and piece i yields entry i's key and value text. |
| ContextCodec.BuiltContextDecodes | server.js:34-47 | Decoding every segment of the text buildContext returns when nothing throws succeeds and gives the (key, value text) pairs of the entries, in order. |
| ContextCodec.BuiltContextParses | server.js:34-53 | parseContext of the text buildContext returns when nothing throws succeeds and equals assigning those pairs in order into `{}`. |
| ContextCodec.RoundTrip | server.js:34-53 | For distinct keys without pipes or `=` and other than `__proto__`, whenever buildContext(obj) does not throw, parseContext of its result succeeds. It has exactly obj's keys, each mapped to the text of its value: `""` for a falsy value, the string itself for a non-empty string. |
| ContextCodec.ParseContext | server.js:40-53 | No contract of its own; ParseContextShapes, ParseFailsIffSomeSegmentFails, ParseKeepsLastOfEachKey and RoundTrip state what it returns. |
| ContextCodec.Truthy | server.js:36-41 | No contract of its own; FieldText and ParseContextShapes state its effect. |
| ContextCodec.Entry | server.js:42 | No contract of its own; ParseContextShapes and WrappedEntryParsesAsString state its effect. |
| ContextCodec.ParseSegments | server.js:45-49 | No contract of its own; ParseSegmentsDecodesThenAssigns states it. |
| ContextCodec.Assign | server.js:47 | No contract of its own; AssignAllKeys, AssignAllUntouched and AssignAllLast state its effect over a run of assignments. |
| ContextCodec.ParseContextShapes | server.js:40-53 | A falsy payload gives `{}`. A payload without a truthy `custom.entry` that is not a string gives `{}`. A truthy string `custom.entry` parses as that string. A truthy non-string `custom.entry` gives `{}`. |
| ContextCodec.WrappedEntryParsesAsString | server.js:42 | `{custom: {entry: s}}` parses exactly as `s`. |
| ContextCodec.SegmentKey | server.js:46 | No contract of its own: the text before the first `=`; SegmentSplitsAtFirstEquals states it. |
| ContextCodec.SegmentValue | server.js:46-47 | No contract of its own: the pieces after the first `=`, rejoined with `=`; SegmentSplitsAtFirstEquals states it. |
| ContextCodec.SegmentSplitsAtFirstEquals | server.js:46-47 | A piece is split at its first `=` only: the key is the text before it and the value text is all of the rest, later `=` included. A piece without `=` is all key, with an empty value text. |
| ContextCodec.ParseSegmentsDecodesThenAssigns | server.js:45-49 | The reduce equals decoding every segment first and then assigning the pairs in order. It fails exactly when the decoding fails. |
| ContextCodec.DecodeSegmentsSpec | server.js:47 | Decoding the segments fails if and only if some segment's value fails to decode. On success, pair i is segment i's key and decoded value. |
| ContextCodec.AssignAllKeys | server.js:47 | Assigning pairs adds exactly their keys, except `__proto__`, to the accumulator's keys. |
| ContextCodec.AssignAllUntouched | server.js:47 | A key no pair names keeps its value. |
| ContextCodec.AssignAllLast | server.js:47 | A key holds the value of the last pair that names it. |
| ContextCodec.ParseFailsIffSomeSegmentFails | server.js:41-49 | A string payload, the empty one included, fails to parse if and only if some segment's value fails to decode. |
| ContextCodec.ParseKeepsLastOfEachKey | server.js:45-49 | A parsed record has exactly the segment keys except `__proto__`. Each key holds the decoded value of the last segment that names it. |
| ContextExamples.PlainSegment | server.js:46-47 | `k=v`, with no `=` in k and no `%` in v, reads back as key k and value v. |
| ContextExamples.DuplicateKeyLastWins | server.js:45-49 | Two segments `k=v1` and `k=v2`, joined by a pipe, parse as `{k: v2}`. |
| ContextExamples.BareKeyGetsEmpty | server.js:46-47 | A payload `k` without `=` parses as `{k: ""}`. |
| ContextExamples.LaterEqualsStayInValue | server.js:46-47 | `k=a=b` parses as `{k: "a=b"}`. |
| ContextExamples.OwnToStringThrows | server.js:34-38 | buildContext of `{k: {toString: v}}` throws, for every key and value. `{k: {note: v}}` gives the single segment for k, whose value text is `[object Object]`. |
| ContextExamples.BadEscapeAborts | server.js:47 | The segments `k1=v` and `k2=%`, joined by a pipe, fail as a whole, although the first segment is well-formed. |
| UriComponent.Encode | server.js:36 | Every output character is unreserved, `%` or an upper-case hex digit. |
| UriComponent.Decode | server.js:47 | No contract of its own; DecodeEncode, DecodePlain and DecodeRejectsMalformed state what it returns. |
| UriComponent.DecodeEncode | server.js:36-47 | decodeURIComponent(encodeURIComponent(s)) == s for every string of scalar values. |
| UriComponent.DecodeEncodeChar | server.js:36-47 | Decoding consumes exactly the encoding of one character and yields that character. |
| UriComponent.Utf8Decodes | server.js:36-47 | The UTF-8 bytes the encoder writes for a non-ASCII character carry the right lead and continuation bits and decode to that character. |
| UriComponent.EncodeAvoidsSeparators | server.js:36-37 | An encoded value contains neither a pipe nor `=`. |
| UriComponent.DecodePlain | server.js:47 | Text without `%` decodes to itself. |
| UriComponent.DecodeRejectsMalformed | server.js:47 | A truncated escape, a truncated multi-byte sequence and an overlong encoding each fail to decode. |
| JsString.Join | server.js:37 | No contract of its own; JoinSplit, SplitJoin and JoinAppend state it. |
| JsString.Split | server.js:45-46 | `split` gives at least one piece, and no piece holds the separator. |
| JsString.JoinSplit | server.js:46-47 | Joining the pieces of a split with the separator gives back the string. |
| JsString.SplitJoin | server.js:37-45 | Splitting a join of separator-free pieces gives back the pieces. |
| JsString.SplitAtFirst | server.js:46-47 | The first piece is the text before the first separator, and the joined rest is the text after it. |
| JsString.SplitWhiteSpace | server.js:56 | `split(/\s+/)` gives at least one piece, and no piece holds white space. |
| JsString.SplitWhiteSpaceWeaves | server.js:56 | `split(/\s+/)` cuts at the maximal white-space runs. There is one run fewer than pieces, every run is non-empty white space, and the pieces interleaved with the runs give back the string. |
| JsString.SplitTrimmedGivesWords | server.js:56 | On a trimmed, non-blank text every piece of `split(/\s+/)` is a non-empty word. |
| JsString.IsWhiteSpace | server.js:56 | No contract of its own: the WhiteSpace and LineTerminator characters of ECMA-262 that `\s` and `trim` match; TrimStartRemoves, TrimEndRemoves and SplitWhiteSpaceWeaves use it. |
| JsString.Trim | server.js:56 | No contract of its own: it is TrimEnd after TrimStart, whose rows follow. |
| JsString.TrimStart | server.js:56 | `trimStart` returns a suffix that is empty or starts with non-white space. |
| JsString.TrimStartRemoves | server.js:56 | Everything `trimStart` removes is white space. With the suffix property above, it removes exactly the leading white space. |
| JsString.TrimEnd | server.js:56 | `trimEnd` returns a prefix that is empty or ends with non-white space. |
| JsString.TrimEndRemoves | server.js:56 | Everything `trimEnd` removes is white space. With the prefix property above, it removes exactly the trailing white space. |
| JsString.Units | server.js:61 | `length` counts at least one unit per character, and is positive for a non-empty string. |
| JsString.UnitsBounds | server.js:61 | `length` is at most two units per character. It equals the character count if and only if no character lies beyond U+FFFF, and twice the count if and only if all do. |
| JsString.UnitsChar | server.js:61 | One character counts two units beyond U+FFFF and one otherwise. |
| JsString.UnitsAppend | server.js:61 | `length` adds up over concatenation. With UnitsChar this determines the length of every string. |
| JsString.IntToDecimal | server.js:36 | `String(n)` of an integer is never empty. |
| JsString.NatToDecimal | server.js:36 | The digits of a natural number are decimal digits, at least one. |
| JsString.NatToDecimalValue | server.js:36 | The digits written for n denote n and start with `0` only for n = 0, which is the single digit `0`: the canonical decimal form. |
| JsString.IntToDecimalValue | server.js:36 | A negative number is a minus sign followed by the digits of its magnitude; any other number is its digits alone. |
| TextWrap.WordsOfText | server.js:56 | A blank text has no words. The words of any other text are non-empty and free of white space, and interleaved with the white-space runs between them they give back the trimmed text. |
| TextWrap.WrapText | server.js:55-69 | The result is `""` if and only if the text is blank. Otherwise its lines lay out the text's words greedily: see the next row. |
| TextWrap.WrapTextDefault | server.js:55 | The same, at the default width 32. |
| TextWrap.Close | server.js:66-68 | After the loop, the lines plus the last trimmed line join and split back unchanged, and they form a greedy layout of the words. The greedy layout is: all words in order and unaltered; a line wider than `max` holds one word; the only empty line is a first line pushed before an overlong first word; no line could take the next line's first word. |
| TextWrap.PushKeeps | server.js:61-63 | When the next word does not fit, pushing the trimmed line and starting a new one with that word keeps the loop invariant. |
| TextWrap.ExtendKeeps | server.js:64 | When the next word fits, appending it after a space keeps the loop invariant. |
| TextWrap.TestFacts | server.js:61 | The trimmed line is the current words joined by spaces, and the width tested is that line's width plus one plus the word's. For the first word it is just that word's width. |
| TextWrap.Finish | server.js:68 | Lines built from groups of words join with `\n` and split back unchanged, and form a greedy layout. |
| TextWrap.LineWordsOfGroup | server.js:62-68 | Splitting a line of words joined by spaces gives back the words. A line holds a space if and only if it holds more than one word. |
| XmlEscape.ReplaceAll | server.js:73-75 | Every character of the output comes from the replacement or is a character of the input other than the pattern. |
| XmlEscape.EscapeXml | server.js:71-76 | The output contains no `<` and no `>`. |
| XmlEscape.ChainOnCharacter | server.js:72-75 | On one character, the three replacements in order give that character's entity, or the character itself. |
| XmlEscape.EscapeXmlIsPerCharacter | server.js:71-76 | escapeXml equals replacing each character independently by its entity. Every other character, quotes included, is kept in order. |
| XmlEscape.EscapeXmlEntitiesOnly | server.js:71-76 | Every `&` of the output begins `&amp;`, `&lt;` or `&gt;`. |
| XmlEscape.EscapeXmlLength | server.js:71-76 | The output length is the input length + 4·#& + 3·#< + 3·#>. |
| XmlEscape.EscapeEachAmpersands | server.js:71-76 | The output has one `&` per `&`, `<` and `>` of the input. |
| XmlEscape.EscapeXmlFixedPoints | server.js:71-76 | escapeXml(s) == s if and only if s has no `&`, `<` or `>`. |
| XmlEscape.EscapeTwice | server.js:71-76 | Escaping twice equals escaping once if and only if escaping changes nothing. |
| XmlEscape.EscapeAmpersandTwice | server.js:71-76 | `&` escapes to `&amp;`, and escaping that again gives `&amp;amp;`. |
| XmlEscape.UnescapeEscapeXml | server.js:71-76 | Unescaping the output recovers the input. |
| XmlEscape.EscapeXmlOfUnescape | server.js:71-76 | Any text the unescaper accepts is escapeXml of what it returns, so the escape is a bijection onto those texts. |

## Left out

- Express setup, routes and middleware, and the Cloudinary, Sharp and axios calls in `server.js`: HTTP plumbing and foreign libraries whose behaviour is not visible here.
- `public/script.js`: browser DOM code and `fetch` calls.
- `Object.entries(obj)` is not modelled. `buildContext` takes the entries that call lists, in order. The throw for `null`, and the per-character entries of a string argument, are not modelled.
- Default parameters are not modelled. A caller that passes `undefined` is modelled by passing `{}`, `""` or 32 explicitly; `WrapTextDefault` covers the default `max`.
- `wrapText` and `escapeXml` on a non-string argument, where `trim` or `replace` throws, are not modelled. `max` is an integer; a fractional or `NaN` width is not modelled.
- ToText: `String(n)` is modelled in plain decimal, which is what JavaScript writes for integers below 10^21 in magnitude. From 10^21 on, JavaScript switches to exponent form (`1e+21`), which is not modelled. `Num` also admits integers beyond 2^53, which no JavaScript number holds exactly.
- JavaScript numbers are modelled as integers only. `String(v)` of a fractional number, `NaN`, `Infinity` or `-0` is not modelled, and neither are symbols, BigInts or functions. An array value is treated as a plain object (`"[object Object]"`) rather than joined with commas.
- Strings are sequences of Unicode scalar values. A lone UTF-16 surrogate cannot be written, so the `URIError` that `encodeURIComponent` throws for one is not modelled. `Units` still counts the UTF-16 length of astral characters.
- Own `toString` and `valueOf` methods are not modelled, because values hold no functions. An own `toString` property therefore always makes `String(v)` throw, and an own `valueOf` property never matters.
- The type of a thrown exception is not modelled: every throw is `None`.
- The key order of the object `parseContext` returns is not modelled: the record is a map.
- An object lists each property name once, as `JSON.parse` leaves it after keeping the last of duplicate names. An `Object` value listing a name twice is outside the model: `Lookup` would read its first binding.
- Inherited properties are not modelled. `ctx.custom` and `custom.entry` read own properties only, which is what the standard prototypes give for those names.
- TrimStart: the function's own contract gives only the shape of the suffix it returns; that the removed prefix is all white space is stated by `TrimStartRemoves`, a separate lemma, so that proofs that never need the quantifier do not carry it.
- TrimEnd: likewise, that the removed suffix is all white space is stated by `TrimEndRemoves`.
- Units: the function's own contract gives only lower bounds; its exact value is stated by `UnitsChar` and `UnitsAppend` together, and its range by `UnitsBounds`.
- SplitWhiteSpace: the function's own contract says that no piece holds white space; how the pieces and the white-space runs between them rebuild the string is stated by `SplitWhiteSpaceWeaves`.
- RoundTrip: stated for keys that are distinct, free of `|` and `=`, and not `__proto__`. For other keys, `ParseKeepsLastOfEachKey` and `SegmentSplitsAtFirstEquals` state what comes back instead.
