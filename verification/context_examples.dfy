/** Payload shapes for parseContext (server.js:40-53), stated for every
    key and value of the shape: a repeated key, a segment without `=`, a
    value holding `=`, and a malformed escape after a good segment. */
module ContextExamples {
  import opened Wrappers
  import opened JsString
  import opened ContextCodec
  import UriComponent

  /** A key the parser stores as an own property. */
  predicate PlainKey(k: string) {
    '|' !in k && '=' !in k && k != "__proto__"
  }

  /** A segment `k=v` with a value that has no escapes. */
  lemma PlainSegment(k: string, v: string)
    requires '=' !in k && '%' !in v
    ensures SegmentKey(k + "=" + v) == k
    ensures UriComponent.Decode(SegmentValue(k + "=" + v)) == Some(v)
  {
    var part := k + "=" + v;
    assert part[|k|] == '=' && part[..|k|] == k && part[|k| + 1..] == v;
    SegmentSplitsAtFirstEquals(part);
    UriComponent.DecodePlain(v);
  }

  /** The later of two segments with the same key wins. */
  lemma DuplicateKeyLastWins(k: string, v1: string, v2: string)
    requires PlainKey(k)
    requires '|' !in v1 && '%' !in v1 && '|' !in v2 && '%' !in v2
    ensures ParseContext(Str(k + "=" + v1 + "|" + k + "=" + v2)) == Some(map[k := v2])
  {
    var a, b := k + "=" + v1, k + "=" + v2;
    var s := a + "|" + b;
    assert s == a + ['|'] + b && s != [];
    assert s == k + "=" + v1 + "|" + k + "=" + v2;
    ParseStringPayload(s);
    SplitPair(a, b, '|');
    PlainSegment(k, v1);
    PlainSegment(k, v2);
    var first := map[k := v1];
    assert ParseSegments([a, b], map[]) == ParseSegments([b], first);
    assert ParseSegments([b], first) == Some(first[k := v2]);
    assert first[k := v2] == map[k := v2];
  }

  /** A segment without `=` maps its whole text to the empty string. */
  lemma BareKeyGetsEmpty(k: string)
    requires PlainKey(k) && k != []
    ensures ParseContext(Str(k)) == Some(map[k := ""])
  {
    ParseStringPayload(k);
    SplitNoSeparator(k, '|');
    SegmentSplitsAtFirstEquals(k);
    assert ParseSegments([k], map[]) == ParseSegments([], map[k := ""]);
  }

  /** Only the first `=` separates; the others stay in the value. */
  lemma LaterEqualsStayInValue(k: string, a: string, b: string)
    requires PlainKey(k)
    requires '|' !in a && '%' !in a && '|' !in b && '%' !in b
    ensures ParseContext(Str(k + "=" + a + "=" + b)) == Some(map[k := a + "=" + b])
  {
    var v := a + "=" + b;
    var s := k + "=" + v;
    assert s == k + "=" + a + "=" + b && s != [];
    assert '|' !in s;
    ParseStringPayload(s);
    SplitNoSeparator(s, '|');
    PlainSegment(k, v);
    assert ParseSegments([s], map[]) == ParseSegments([], map[k := v]);
  }

  /** A good first segment does not save a payload whose second segment
      ends in a lone `%`. */
  lemma BadEscapeAborts(k1: string, v: string, k2: string)
    requires PlainKey(k1) && PlainKey(k2)
    requires '|' !in v && '%' !in v
    ensures ParseContext(Str(k1 + "=" + v + "|" + k2 + "=%")) == None
  {
    var a, b := k1 + "=" + v, k2 + "=%";
    var s := a + "|" + b;
    assert s == a + ['|'] + b && s != [];
    assert s == k1 + "=" + v + "|" + k2 + "=%";
    SplitPair(a, b, '|');
    ParseFailsIffSomeSegmentFails(s);
    assert b[|k2|] == '=' && b[..|k2|] == k2 && b[|k2| + 1..] == "%";
    SegmentSplitsAtFirstEquals(b);
    UriComponent.DecodeRejectsMalformed();
    assert UriComponent.Decode(SegmentValue(Split(s, '|')[1])) == None;
  }

  /** A value that is an object with its own `toString` property makes
      buildContext throw; one without converts to `[object Object]`. */
  lemma OwnToStringThrows(k: string, v: JsValue)
    ensures BuildContext([(k, Object([("toString", v)]))]) == None
    ensures BuildContext([(k, Object([("note", v)]))]) == Some(Segment(k, Object([("note", v)])))
    ensures FieldText(Object([("note", v)])) == "[object Object]"
  {
    var bad, good := Object([("toString", v)]), Object([("note", v)]);
    assert ConversionThrows(bad) by {
      assert bad.props[0].0 == "toString";
    }
    assert !ConversionThrows(good) by {
      assert good.props[0].0 == "note" != "toString";
    }
    assert ContextString([(k, good)]) == Segment(k, good);
  }
}
