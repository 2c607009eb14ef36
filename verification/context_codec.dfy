/** The context codec of server.js:34-53. `buildContext` packs the own
    entries of an object into `k1=v1|k2=v2|...`, each value percent-encoded
    and each falsy value written as the empty string. `parseContext` takes a
    stored payload, unwraps one `custom.entry` level, splits a string payload
    at every `|` and each piece at its first `=`, percent-decodes the value
    and assigns it into a fresh object, so that a later key overrides an
    earlier one. A value that fails to decode throws, which aborts the whole
    parse; here that is the `None` result. */
module ContextCodec {
  import opened Wrappers
  import opened JsString
  import UriComponent

  /** The JavaScript values a payload or a field can be. Numbers are
      integers; an object lists its own properties in order, each name
      once, as `JSON.parse` leaves them. */
  datatype JsValue =
    | Undefined
    | Null
    | Bool(b: bool)
    | Num(n: int)
    | Str(s: string)
    | Object(props: seq<(string, JsValue)>)

  /** JavaScript truthiness: false for undefined, null, false, 0 and "". */
  predicate Truthy(v: JsValue) {
    match v
    case Undefined => false
    case Null => false
    case Bool(b) => b
    case Num(n) => n != 0
    case Str(s) => s != []
    case Object(_) => true
  }

  function Lookup(props: seq<(string, JsValue)>, key: string): JsValue {
    if props == [] then Undefined
    else if props[0].0 == key then props[0].1
    else Lookup(props[1..], key)
  }

  /** `v[key]`, and `v?.[key]`, for the property names the codec reads:
      primitives and missing properties give undefined. */
  function Property(v: JsValue, key: string): JsValue {
    match v
    case Object(props) => Lookup(props, key)
    case _ => Undefined
  }

  /** `ctx.custom?.entry`. */
  function Entry(ctx: JsValue): JsValue {
    Property(Property(ctx, "custom"), "entry")
  }

  /** `String(v)` on an object calls its `toString`, and failing that its
      `valueOf`, and throws a TypeError when neither gives a primitive. A
      value here holds no functions, so an own `toString` property is not
      callable and `valueOf` gives back the object itself: the conversion
      throws. Without one, `Object.prototype.toString` applies. */
  predicate ConversionThrows(v: JsValue) {
    v.Object? && exists i :: 0 <= i < |v.props| && v.props[i].0 == "toString"
  }

  /** `String(v)`, the conversion encodeURIComponent applies to its
      argument, where it does not throw. */
  function ToText(v: JsValue): string {
    match v
    case Undefined => "undefined"
    case Null => "null"
    case Bool(b) => if b then "true" else "false"
    case Num(n) => IntToDecimal(n)
    case Str(s) => s
    case Object(_) => "[object Object]"
  }

  /** The text `encodeURIComponent(v || "")` encodes: empty exactly for a
      falsy value, since every truthy value converts to a non-empty text. */
  function FieldText(v: JsValue): (r: string)
    ensures r == [] <==> !Truthy(v)
  {
    if Truthy(v) then ToText(v) else ""
  }

  /** One `k=<percent-encoded v>` segment. */
  function Segment(key: string, v: JsValue): string {
    key + "=" + UriComponent.Encode(FieldText(v))
  }

  /** The text buildContext(obj) returns when no value's conversion
      throws, given the entries `Object.entries(obj)` lists. */
  function ContextString(entries: seq<(string, JsValue)>): string {
    Join(seq(|entries|, i requires 0 <= i < |entries| => Segment(entries[i].0, entries[i].1)), '|')
  }

  /** buildContext(obj); None where a value's conversion throws. */
  function BuildContext(entries: seq<(string, JsValue)>): Option<string> {
    if exists i :: 0 <= i < |entries| && ConversionThrows(entries[i].1) then None
    else Some(ContextString(entries))
  }

  /** buildContext throws exactly when some value's conversion throws, and
      an object without entries gives `""`. */
  lemma BuildContextThrows(entries: seq<(string, JsValue)>)
    ensures BuildContext(entries) == None <==>
      exists i :: 0 <= i < |entries| && ConversionThrows(entries[i].1)
    ensures entries == [] ==> BuildContext(entries) == Some([])
  {
  }

  /** The key of a segment: `part.split("=")[0]`. */
  function SegmentKey(part: string): string {
    Split(part, '=')[0]
  }

  /** The encoded value of a segment: `rest.join("=")` after `[k, ...rest] = part.split("=")`. */
  function SegmentValue(part: string): string {
    Join(Split(part, '=')[1..], '=')
  }

  /** `acc[k] = v` on a plain object: assigning a string to `__proto__`
      goes to the inherited accessor, which ignores it. */
  function Assign(acc: map<string, string>, k: string, v: string): map<string, string> {
    if k == "__proto__" then acc else acc[k := v]
  }

  /** The `reduce` over the segments; None once a value fails to decode. */
  function ParseSegments(parts: seq<string>, acc: map<string, string>): Option<map<string, string>> {
    if parts == [] then Some(acc)
    else match UriComponent.Decode(SegmentValue(parts[0]))
      case None => None
      case Some(v) => ParseSegments(parts[1..], Assign(acc, SegmentKey(parts[0]), v))
  }

  /** parseContext(ctx); None where it throws. */
  function ParseContext(ctx: JsValue): Option<map<string, string>> {
    if !Truthy(ctx) then Some(map[])
    else
      var payload := if Truthy(Entry(ctx)) then Entry(ctx) else ctx;
      match payload
      case Str(s) => ParseSegments(Split(s, '|'), map[])
      case _ => Some(map[])
  }

  // ---------------------------------------------------------------------
  // Specification helpers: the segments decoded one by one, and the
  // assignments made in order.

  function DecodeSegments(parts: seq<string>): Option<seq<(string, string)>> {
    if parts == [] then Some([])
    else match UriComponent.Decode(SegmentValue(parts[0]))
      case None => None
      case Some(v) =>
        match DecodeSegments(parts[1..])
        case None => None
        case Some(rest) => Some([(SegmentKey(parts[0]), v)] + rest)
  }

  function AssignAll(acc: map<string, string>, pairs: seq<(string, string)>): map<string, string>
    decreases |pairs|
  {
    if pairs == [] then acc else AssignAll(Assign(acc, pairs[0].0, pairs[0].1), pairs[1..])
  }

  function PairKeys(pairs: seq<(string, string)>): set<string> {
    set i | 0 <= i < |pairs| :: pairs[i].0
  }

  function SegmentKeys(parts: seq<string>): set<string> {
    set i | 0 <= i < |parts| :: SegmentKey(parts[i])
  }

  function Keys(entries: seq<(string, JsValue)>): set<string> {
    set i | 0 <= i < |entries| :: entries[i].0
  }

  // ---------------------------------------------------------------------
  // buildContext

  /** buildContext throws exactly when some value's conversion does.
      Otherwise, with keys free of `|`, the output has one segment per
      entry, in order; each is the key, `=`, and a separator-free encoding
      that decodes to the value's text, which is empty for a falsy value. */
  lemma BuildContextSegments(entries: seq<(string, JsValue)>)
    requires forall i :: 0 <= i < |entries| ==> '|' !in entries[i].0
    ensures BuildContext(entries) == None <==>
      exists i :: 0 <= i < |entries| && ConversionThrows(entries[i].1)
    ensures entries == [] ==> BuildContext(entries) == Some([])
    ensures entries != [] && BuildContext(entries).Some? ==>
      var segs := Split(BuildContext(entries).value, '|');
      && |segs| == |entries|
      && forall i :: 0 <= i < |entries| ==>
        var k := entries[i].0;
        && |segs[i]| > |k|
        && segs[i][..|k| + 1] == k + "="
        && (var enc := segs[i][|k| + 1..];
            && '|' !in enc && '=' !in enc
            && UriComponent.Decode(enc) == Some(FieldText(entries[i].1)))
        && (!Truthy(entries[i].1) ==> segs[i] == k + "=")
  {
    if entries != [] {
      var segs := seq(|entries|, i requires 0 <= i < |entries| => Segment(entries[i].0, entries[i].1));
      forall i | 0 <= i < |entries| ensures '|' !in segs[i] {
        UriComponent.EncodeAvoidsSeparators(FieldText(entries[i].1));
      }
      SplitJoin(segs, '|');
      forall i | 0 <= i < |entries|
        ensures var k := entries[i].0;
          && |segs[i]| > |k| && segs[i][..|k| + 1] == k + "="
          && (var enc := segs[i][|k| + 1..];
              && '|' !in enc && '=' !in enc
              && UriComponent.Decode(enc) == Some(FieldText(entries[i].1)))
          && (!Truthy(entries[i].1) ==> segs[i] == k + "=")
      {
        var k := entries[i].0;
        var text := FieldText(entries[i].1);
        assert segs[i][|k| + 1..] == UriComponent.Encode(text);
        UriComponent.EncodeAvoidsSeparators(text);
        UriComponent.DecodeEncode(text);
      }
    }
  }

  // ---------------------------------------------------------------------
  // parseContext

  /** A piece is split at its first `=` only: the key is what precedes it
      and the value text is everything after it, later `=` included; a
      piece without `=` is all key, with an empty value text. */
  lemma SegmentSplitsAtFirstEquals(part: string)
    ensures '=' !in part ==> SegmentKey(part) == part && SegmentValue(part) == []
    ensures forall i :: 0 <= i < |part| && part[i] == '=' && '=' !in part[..i] ==>
      SegmentKey(part) == part[..i] && SegmentValue(part) == part[i + 1..]
  {
    if '=' !in part {
      SplitNoSeparator(part, '=');
    }
    forall i | 0 <= i < |part| && part[i] == '=' && '=' !in part[..i]
      ensures SegmentKey(part) == part[..i] && SegmentValue(part) == part[i + 1..]
    {
      SplitAtFirst(part, '=', i);
    }
  }

  /** The payload shapes parseContext accepts: a falsy payload gives the
      empty record, a truthy `custom.entry` is unwrapped once (and must then
      be a string), and any other non-string payload gives the empty record. */
  lemma ParseContextShapes(ctx: JsValue)
    ensures !Truthy(ctx) ==> ParseContext(ctx) == Some(map[])
    ensures !Truthy(Entry(ctx)) && !ctx.Str? ==> ParseContext(ctx) == Some(map[])
    ensures Truthy(Entry(ctx)) && Entry(ctx).Str? ==> ParseContext(ctx) == ParseContext(Entry(ctx))
    ensures Truthy(Entry(ctx)) && !Entry(ctx).Str? ==> ParseContext(ctx) == Some(map[])
  {
  }

  /** A non-empty string payload is parsed segment by segment. */
  lemma ParseStringPayload(s: string)
    requires s != []
    ensures ParseContext(Str(s)) == ParseSegments(Split(s, '|'), map[])
  {
    assert Truthy(Str(s)) && Entry(Str(s)) == Undefined;
  }

  /** `{custom: {entry: s}}` parses exactly as `s` does. */
  lemma WrappedEntryParsesAsString(s: string)
    ensures ParseContext(Object([("custom", Object([("entry", Str(s))]))])) == ParseContext(Str(s))
  {
  }

  /** The reduce equals decoding every segment and then assigning the
      pairs in order. */
  lemma {:induction false} ParseSegmentsDecodesThenAssigns(parts: seq<string>, acc: map<string, string>)
    ensures ParseSegments(parts, acc) ==
      match DecodeSegments(parts)
      case None => None
      case Some(pairs) => Some(AssignAll(acc, pairs))
  {
    if parts != [] {
      match UriComponent.Decode(SegmentValue(parts[0]))
      case None =>
      case Some(v) =>
        ParseSegmentsDecodesThenAssigns(parts[1..], Assign(acc, SegmentKey(parts[0]), v));
    }
  }

  /** Decoding the segments fails exactly when some segment fails; when it
      succeeds, pair i is segment i's key and decoded value. */
  lemma {:induction false} DecodeSegmentsSpec(parts: seq<string>)
    ensures DecodeSegments(parts) == None <==>
      exists i :: 0 <= i < |parts| && UriComponent.Decode(SegmentValue(parts[i])) == None
    ensures DecodeSegments(parts).Some? ==>
      var pairs := DecodeSegments(parts).value;
      && |pairs| == |parts|
      && forall i :: 0 <= i < |parts| ==>
        pairs[i].0 == SegmentKey(parts[i]) && Some(pairs[i].1) == UriComponent.Decode(SegmentValue(parts[i]))
  {
    if parts != [] {
      DecodeSegmentsSpec(parts[1..]);
      if UriComponent.Decode(SegmentValue(parts[0])).Some? && DecodeSegments(parts[1..]) == None {
        var j :| 0 <= j < |parts[1..]| && UriComponent.Decode(SegmentValue(parts[1..][j])) == None;
        assert UriComponent.Decode(SegmentValue(parts[j + 1])) == None;
      }
      if DecodeSegments(parts).Some? {
        var pairs := DecodeSegments(parts).value;
        forall i | 0 <= i < |parts|
          ensures pairs[i].0 == SegmentKey(parts[i]) && Some(pairs[i].1) == UriComponent.Decode(SegmentValue(parts[i]))
        {
          if i > 0 {
            assert parts[i] == parts[1..][i - 1];
          }
        }
      }
    }
  }

  /** Assignments in order add every assigned key but `__proto__`. */
  lemma {:induction false} AssignAllKeys(acc: map<string, string>, pairs: seq<(string, string)>)
    ensures AssignAll(acc, pairs).Keys == acc.Keys + (PairKeys(pairs) - {"__proto__"})
    decreases |pairs|
  {
    if pairs != [] {
      AssignAllKeys(Assign(acc, pairs[0].0, pairs[0].1), pairs[1..]);
      assert PairKeys(pairs) == {pairs[0].0} + PairKeys(pairs[1..]) by {
        forall k | k in PairKeys(pairs) ensures k in {pairs[0].0} + PairKeys(pairs[1..]) {
          var i :| 0 <= i < |pairs| && pairs[i].0 == k;
          if i > 0 { assert pairs[1..][i - 1].0 == k; }
        }
      }
    }
  }

  /** A key no assignment names keeps its value. */
  lemma {:induction false} AssignAllUntouched(acc: map<string, string>, pairs: seq<(string, string)>, k: string)
    requires k in acc && k !in PairKeys(pairs)
    ensures k in AssignAll(acc, pairs) && AssignAll(acc, pairs)[k] == acc[k]
    decreases |pairs|
  {
    if pairs != [] {
      assert pairs[0].0 in PairKeys(pairs);
      assert PairKeys(pairs[1..]) <= PairKeys(pairs) by {
        forall j | 0 <= j < |pairs[1..]| ensures pairs[1..][j].0 in PairKeys(pairs) {
          assert pairs[1..][j] == pairs[j + 1];
        }
      }
      AssignAllUntouched(Assign(acc, pairs[0].0, pairs[0].1), pairs[1..], k);
    }
  }

  /** A key holds the value of its last assignment. */
  lemma {:induction false} AssignAllLast(acc: map<string, string>, pairs: seq<(string, string)>, i: nat)
    requires i < |pairs| && pairs[i].0 != "__proto__"
    requires forall j :: i < j < |pairs| ==> pairs[j].0 != pairs[i].0
    ensures pairs[i].0 in AssignAll(acc, pairs) && AssignAll(acc, pairs)[pairs[i].0] == pairs[i].1
    decreases |pairs|
  {
    var acc' := Assign(acc, pairs[0].0, pairs[0].1);
    if i == 0 {
      assert pairs[0].0 !in PairKeys(pairs[1..]) by {
        forall j | 0 <= j < |pairs[1..]| ensures pairs[1..][j].0 != pairs[0].0 {
          assert pairs[1..][j] == pairs[j + 1];
        }
      }
      AssignAllUntouched(acc', pairs[1..], pairs[0].0);
    } else {
      assert pairs[1..][i - 1] == pairs[i];
      forall j | i - 1 < j < |pairs[1..]| ensures pairs[1..][j].0 != pairs[i].0 {
        assert pairs[1..][j] == pairs[j + 1];
      }
      AssignAllLast(acc', pairs[1..], i - 1);
    }
  }

  /** A string payload fails to parse exactly when one of its segments
      holds a value decodeURIComponent rejects: one bad segment aborts the
      whole decode. */
  lemma ParseFailsIffSomeSegmentFails(s: string)
    ensures ParseContext(Str(s)) == None <==>
      var parts := Split(s, '|');
      exists i :: 0 <= i < |parts| && UriComponent.Decode(SegmentValue(parts[i])) == None
  {
    if s == [] {
      assert Split(s, '|') == [[]];
      assert SegmentValue([]) == [];
    } else {
      ParseStringPayload(s);
      ParseSegmentsDecodesThenAssigns(Split(s, '|'), map[]);
      DecodeSegmentsSpec(Split(s, '|'));
    }
  }

  /** The record parsed from a string payload has exactly the keys of its
      segments (except `__proto__`), and each key holds the decoded value of
      the last segment that names it. */
  lemma ParseKeepsLastOfEachKey(s: string, record: map<string, string>)
    requires s != [] && ParseContext(Str(s)) == Some(record)
    ensures record.Keys == SegmentKeys(Split(s, '|')) - {"__proto__"}
    ensures var parts := Split(s, '|');
      forall i :: 0 <= i < |parts| && SegmentKey(parts[i]) != "__proto__"
        && (forall j :: i < j < |parts| ==> SegmentKey(parts[j]) != SegmentKey(parts[i]))
        ==> Some(record[SegmentKey(parts[i])]) == UriComponent.Decode(SegmentValue(parts[i]))
  {
    ParsedKeys(s, record);
    ParsedLast(s, record);
  }

  /** A parsed string payload is its decoded pairs assigned in order. */
  lemma ParsedAsPairs(s: string, record: map<string, string>)
    requires s != [] && ParseContext(Str(s)) == Some(record)
    ensures DecodeSegments(Split(s, '|')).Some?
    ensures record == AssignAll(map[], DecodeSegments(Split(s, '|')).value)
  {
    ParseStringPayload(s);
    ParseSegmentsDecodesThenAssigns(Split(s, '|'), map[]);
  }

  lemma ParsedKeys(s: string, record: map<string, string>)
    requires s != [] && ParseContext(Str(s)) == Some(record)
    ensures record.Keys == SegmentKeys(Split(s, '|')) - {"__proto__"}
  {
    var parts := Split(s, '|');
    ParsedAsPairs(s, record);
    var pairs := DecodeSegments(parts).value;
    AssignAllKeys(map[], pairs);
    DecodedPairKeys(parts, pairs);
  }

  lemma ParsedLast(s: string, record: map<string, string>)
    requires s != [] && ParseContext(Str(s)) == Some(record)
    ensures var parts := Split(s, '|');
      forall i :: 0 <= i < |parts| && SegmentKey(parts[i]) != "__proto__"
        && (forall j :: i < j < |parts| ==> SegmentKey(parts[j]) != SegmentKey(parts[i]))
        ==> (&& SegmentKey(parts[i]) in record
             && Some(record[SegmentKey(parts[i])]) == UriComponent.Decode(SegmentValue(parts[i])))
  {
    var parts := Split(s, '|');
    ParsedAsPairs(s, record);
    var pairs := DecodeSegments(parts).value;
    forall i | 0 <= i < |parts| && SegmentKey(parts[i]) != "__proto__"
      && (forall j :: i < j < |parts| ==> SegmentKey(parts[j]) != SegmentKey(parts[i]))
      ensures SegmentKey(parts[i]) in record
      ensures Some(record[SegmentKey(parts[i])]) == UriComponent.Decode(SegmentValue(parts[i]))
    {
      DecodedLast(parts, pairs, i);
    }
  }

  /** The last segment naming a key gives that key its value. */
  lemma DecodedLast(parts: seq<string>, pairs: seq<(string, string)>, i: nat)
    requires DecodeSegments(parts) == Some(pairs)
    requires i < |parts| && SegmentKey(parts[i]) != "__proto__"
    requires forall j :: i < j < |parts| ==> SegmentKey(parts[j]) != SegmentKey(parts[i])
    ensures SegmentKey(parts[i]) in AssignAll(map[], pairs)
    ensures Some(AssignAll(map[], pairs)[SegmentKey(parts[i])]) == UriComponent.Decode(SegmentValue(parts[i]))
  {
    DecodeSegmentsSpec(parts);
    AssignAllLast(map[], pairs, i);
  }

  /** The decoded pairs name the keys of the segments. */
  lemma DecodedPairKeys(parts: seq<string>, pairs: seq<(string, string)>)
    requires DecodeSegments(parts) == Some(pairs)
    ensures PairKeys(pairs) == SegmentKeys(parts)
  {
    DecodeSegmentsSpec(parts);
    forall k | k in SegmentKeys(parts) ensures k in PairKeys(pairs) {
      var i :| 0 <= i < |parts| && SegmentKey(parts[i]) == k;
      assert pairs[i].0 == k;
    }
  }

  // ---------------------------------------------------------------------
  // Round trip

  /** The pieces of a built context read back, key by key, as the entries. */
  lemma BuiltSegmentsParse(entries: seq<(string, JsValue)>)
    requires entries != []
    requires forall i :: 0 <= i < |entries| ==> '|' !in entries[i].0 && '=' !in entries[i].0
    ensures ContextString(entries) != []
    ensures var parts := Split(ContextString(entries), '|');
      && |parts| == |entries|
      && forall i :: 0 <= i < |parts| ==>
        && SegmentKey(parts[i]) == entries[i].0
        && UriComponent.Decode(SegmentValue(parts[i])) == Some(FieldText(entries[i].1))
  {
    var segs := seq(|entries|, i requires 0 <= i < |entries| => Segment(entries[i].0, entries[i].1));
    forall i | 0 <= i < |entries| ensures '|' !in segs[i] {
      UriComponent.EncodeAvoidsSeparators(FieldText(entries[i].1));
    }
    SplitJoin(segs, '|');
    JoinSplit(ContextString(entries), '|');
    forall i | 0 <= i < |segs|
      ensures SegmentKey(segs[i]) == entries[i].0
      ensures UriComponent.Decode(SegmentValue(segs[i])) == Some(FieldText(entries[i].1))
    {
      SegmentParses(entries[i].0, entries[i].1);
    }
  }

  /** One segment reads back as its key and the text of its value. */
  lemma SegmentParses(k: string, v: JsValue)
    requires '=' !in k
    ensures SegmentKey(Segment(k, v)) == k
    ensures UriComponent.Decode(SegmentValue(Segment(k, v))) == Some(FieldText(v))
  {
    var part := Segment(k, v);
    SegmentSplitsAtFirstEquals(part);
    assert part[|k|] == '=' && part[..|k|] == k && part[|k| + 1..] == UriComponent.Encode(FieldText(v));
    UriComponent.DecodeEncode(FieldText(v));
  }

  /** Each entry's key with the text of its value. */
  function TextPairs(entries: seq<(string, JsValue)>): seq<(string, string)> {
    seq(|entries|, i requires 0 <= i < |entries| => (entries[i].0, FieldText(entries[i].1)))
  }

  /** A built context decodes, segment by segment, to the entries' texts. */
  lemma BuiltContextDecodes(entries: seq<(string, JsValue)>)
    requires entries != []
    requires forall i :: 0 <= i < |entries| ==> '|' !in entries[i].0 && '=' !in entries[i].0
    ensures ContextString(entries) != []
    ensures DecodeSegments(Split(ContextString(entries), '|')) == Some(TextPairs(entries))
  {
    BuiltSegmentsParse(entries);
    var parts := Split(ContextString(entries), '|');
    DecodeSegmentsSpec(parts);
    var pairs := DecodeSegments(parts).value;
    assert pairs == TextPairs(entries);
  }

  /** A built context parses to the entries' texts assigned in order. */
  lemma BuiltContextParses(entries: seq<(string, JsValue)>)
    requires entries != []
    requires forall i :: 0 <= i < |entries| ==> '|' !in entries[i].0 && '=' !in entries[i].0
    ensures ParseContext(Str(ContextString(entries))) == Some(AssignAll(map[], TextPairs(entries)))
  {
    BuiltContextDecodes(entries);
    ParseStringPayload(ContextString(entries));
    ParseSegmentsDecodesThenAssigns(Split(ContextString(entries), '|'), map[]);
  }

  lemma TextPairsKeys(entries: seq<(string, JsValue)>)
    ensures PairKeys(TextPairs(entries)) == Keys(entries)
  {
    var pairs := TextPairs(entries);
    forall k | k in Keys(entries) ensures k in PairKeys(pairs) {
      var i :| 0 <= i < |entries| && entries[i].0 == k;
      assert pairs[i].0 == k;
    }
  }

  /** parseContext(buildContext(obj)) recovers obj whenever buildContext
      does not throw: with keys that are distinct, free of `|` and `=`, and
      not `__proto__`, every key comes back with the text of its value
      (empty for a falsy value, the string itself for a non-empty string),
      and nothing else comes back. */
  lemma RoundTrip(entries: seq<(string, JsValue)>)
    requires forall i :: 0 <= i < |entries| ==> '|' !in entries[i].0 && '=' !in entries[i].0
    requires forall i :: 0 <= i < |entries| ==> entries[i].0 != "__proto__"
    requires forall i, j :: 0 <= i < j < |entries| ==> entries[i].0 != entries[j].0
    ensures BuildContext(entries).Some? ==> ParseContext(Str(BuildContext(entries).value)).Some?
    ensures BuildContext(entries).Some? ==>
      var record := ParseContext(Str(BuildContext(entries).value)).value;
      && record.Keys == Keys(entries)
      && (forall i :: 0 <= i < |entries| ==> record[entries[i].0] == FieldText(entries[i].1))
      && (forall i :: 0 <= i < |entries| && entries[i].1.Str? && entries[i].1.s != [] ==>
            record[entries[i].0] == entries[i].1.s)
  {
    if entries == [] {
      assert ParseContext(Str(ContextString(entries))) == Some(map[]);
    } else {
      BuiltContextParses(entries);
      var pairs := TextPairs(entries);
      AssignAllKeys(map[], pairs);
      TextPairsKeys(entries);
      forall i | 0 <= i < |entries|
        ensures AssignAll(map[], pairs)[entries[i].0] == FieldText(entries[i].1)
      {
        AssignAllLast(map[], pairs, i);
      }
    }
  }
}
