/** escapeXml of server.js:71-76: three global replacements, `&` first
    and then `<` and `>`, so that the entities written for `<` and `>` are
    not escaped again. Quotes are left as they are. */
module XmlEscape {
  import opened Wrappers
  import opened DecodedText

  /** The number of occurrences of `c` in `s`. */
  function Count(s: string, c: char): (n: nat)
    ensures n == 0 <==> c !in s
    ensures n <= |s|
  {
    if s == [] then 0 else (if s[0] == c then 1 else 0) + Count(s[1..], c)
  }

  /** `s.replace(/c/g, rep)` for a one-character pattern `c` that has no
      special meaning in a regular expression: every occurrence of `c`
      becomes `rep`. */
  function ReplaceAll(s: string, c: char, rep: string): (r: string)
    ensures forall d :: d in r ==> d in rep || (d in s && d != c)
  {
    if s == [] then []
    else (if s[0] == c then rep else [s[0]]) + ReplaceAll(s[1..], c, rep)
  }

  /** escapeXml(s): the output holds neither `<` nor `>`. */
  function EscapeXml(s: string): (r: string)
    ensures '<' !in r && '>' !in r
  {
    ReplaceAll(ReplaceAll(ReplaceAll(s, '&', "&amp;"), '<', "&lt;"), '>', "&gt;")
  }

  // ---------------------------------------------------------------------
  // A character-by-character reference definition.

  /** The entity for `&`, `<` and `>`; any other character stands for itself. */
  function EscapeChar(c: char): string {
    if c == '&' then "&amp;"
    else if c == '<' then "&lt;"
    else if c == '>' then "&gt;"
    else [c]
  }

  /** Each character replaced by its entity, in a single pass. */
  function EscapeEach(s: string): string {
    if s == [] then [] else EscapeChar(s[0]) + EscapeEach(s[1..])
  }

  lemma {:induction false} ReplaceAllAppend(a: string, b: string, c: char, rep: string)
    ensures ReplaceAll(a + b, c, rep) == ReplaceAll(a, c, rep) + ReplaceAll(b, c, rep)
  {
    if a == [] {
      assert a + b == b;
    } else {
      assert (a + b)[1..] == a[1..] + b;
      ReplaceAllAppend(a[1..], b, c, rep);
    }
  }

  /** Replacing a character that does not occur changes nothing. */
  lemma {:induction false} ReplaceAllWithout(s: string, c: char, rep: string)
    requires c !in s
    ensures ReplaceAll(s, c, rep) == s
  {
    if s != [] {
      ReplaceAllWithout(s[1..], c, rep);
      assert [s[0]] + s[1..] == s;
    }
  }

  lemma ReplaceAllSingle(x: char, c: char, rep: string)
    ensures ReplaceAll([x], c, rep) == if x == c then rep else [x]
  {
    assert [x][1..] == [];
  }

  /** The three chained replacements act on one character as EscapeChar. */
  lemma ChainOnCharacter(x: char)
    ensures ReplaceAll(ReplaceAll(ReplaceAll([x], '&', "&amp;"), '<', "&lt;"), '>', "&gt;") == EscapeChar(x)
  {
    ReplaceAllSingle(x, '&', "&amp;");
    if x == '&' {
      ReplaceAllWithout("&amp;", '<', "&lt;");
      ReplaceAllWithout("&amp;", '>', "&gt;");
    } else {
      ReplaceAllSingle(x, '<', "&lt;");
      if x == '<' {
        ReplaceAllWithout("&lt;", '>', "&gt;");
      } else {
        ReplaceAllSingle(x, '>', "&gt;");
      }
    }
  }

  /** The chained replacements equal the single-pass escape: since `&` is
      replaced first, the `&` of `&lt;` and `&gt;` is never escaped again. */
  lemma {:induction false} EscapeXmlIsPerCharacter(s: string)
    ensures EscapeXml(s) == EscapeEach(s)
  {
    if s != [] {
      var x, t := s[0], s[1..];
      EscapeXmlIsPerCharacter(t);
      assert s == [x] + t;
      ReplaceAllAppend([x], t, '&', "&amp;");
      var x1, t1 := ReplaceAll([x], '&', "&amp;"), ReplaceAll(t, '&', "&amp;");
      ReplaceAllAppend(x1, t1, '<', "&lt;");
      var x2, t2 := ReplaceAll(x1, '<', "&lt;"), ReplaceAll(t1, '<', "&lt;");
      ReplaceAllAppend(x2, t2, '>', "&gt;");
      ChainOnCharacter(x);
    }
  }

  // ---------------------------------------------------------------------
  // Properties of the escaped text.

  /** `t[i..]` begins with one of the three entities. */
  predicate EntityAt(t: string, i: nat)
    requires i <= |t|
  {
    "&amp;" <= t[i..] || "&lt;" <= t[i..] || "&gt;" <= t[i..]
  }

  /** Every `&` of `t` begins an entity. */
  predicate EntitiesOnly(t: string) {
    forall i :: 0 <= i < |t| && t[i] == '&' ==> EntityAt(t, i)
  }

  lemma {:induction false} EscapeEachEntitiesOnly(s: string)
    ensures EntitiesOnly(EscapeEach(s))
  {
    if s != [] {
      EscapeEachEntitiesOnly(s[1..]);
      var e, rest := EscapeChar(s[0]), EscapeEach(s[1..]);
      var t := e + rest;
      forall i | 0 <= i < |t| && t[i] == '&' ensures EntityAt(t, i) {
        if i < |e| {
          assert i == 0;
          assert t[i..] == e + rest;
        } else {
          assert t[i..] == rest[i - |e|..];
          assert rest[i - |e|] == '&';
        }
      }
    }
  }

  /** Every `&` that escapeXml outputs begins `&amp;`, `&lt;` or `&gt;`. */
  lemma EscapeXmlEntitiesOnly(s: string)
    ensures EntitiesOnly(EscapeXml(s))
  {
    EscapeXmlIsPerCharacter(s);
    EscapeEachEntitiesOnly(s);
  }

  lemma {:induction false} EscapeEachLength(s: string)
    ensures |EscapeEach(s)| == |s| + 4 * Count(s, '&') + 3 * Count(s, '<') + 3 * Count(s, '>')
  {
    if s != [] {
      EscapeEachLength(s[1..]);
    }
  }

  /** The output grows by four characters per `&` and three per `<` or `>`. */
  lemma EscapeXmlLength(s: string)
    ensures |EscapeXml(s)| == |s| + 4 * Count(s, '&') + 3 * Count(s, '<') + 3 * Count(s, '>')
  {
    EscapeXmlIsPerCharacter(s);
    EscapeEachLength(s);
  }

  lemma {:induction false} EscapeEachAmpersands(s: string)
    ensures Count(EscapeEach(s), '&') == Count(s, '&') + Count(s, '<') + Count(s, '>')
  {
    if s != [] {
      EscapeEachAmpersands(s[1..]);
      CountAppend(EscapeChar(s[0]), EscapeEach(s[1..]), '&');
      var e := EscapeChar(s[0]);
      if s[0] == '&' {
        assert e == ['&'] + "amp;";
      } else if s[0] == '<' {
        assert e == ['&'] + "lt;";
      } else if s[0] == '>' {
        assert e == ['&'] + "gt;";
      }
    }
  }

  lemma {:induction false} CountAppend(a: string, b: string, c: char)
    ensures Count(a + b, c) == Count(a, c) + Count(b, c)
  {
    if a == [] {
      assert a + b == b;
    } else {
      assert (a + b)[1..] == a[1..] + b;
      CountAppend(a[1..], b, c);
    }
  }

  /** escapeXml changes its input exactly when the input holds `&`, `<`
      or `>`. */
  lemma EscapeXmlFixedPoints(s: string)
    ensures EscapeXml(s) == s <==> '&' !in s && '<' !in s && '>' !in s
  {
    EscapeXmlLength(s);
    if '&' !in s && '<' !in s && '>' !in s {
      ReplaceAllWithout(s, '&', "&amp;");
      ReplaceAllWithout(s, '<', "&lt;");
      ReplaceAllWithout(s, '>', "&gt;");
    }
  }

  /** escapeXml is not idempotent: escaping twice gives the same text as
      escaping once only when escaping changed nothing. */
  lemma EscapeTwice(s: string)
    ensures EscapeXml(EscapeXml(s)) == EscapeXml(s) <==> EscapeXml(s) == s
  {
    var r := EscapeXml(s);
    EscapeXmlFixedPoints(s);
    EscapeXmlFixedPoints(r);
    EscapeXmlIsPerCharacter(s);
    EscapeEachAmpersands(s);
  }

  /** The ampersand of an entity is escaped again on a second pass. */
  lemma EscapeAmpersandTwice()
    ensures EscapeXml("&") == "&amp;"
    ensures EscapeXml(EscapeXml("&")) == "&amp;amp;"
  {
    EscapeAmpersandOnce();
    EscapeXmlIsPerCharacter("&amp;");
    EscapeEntity();
  }

  lemma EscapeEntity()
    ensures EscapeEach("&amp;") == "&amp;amp;"
  {
    var t: string := "&amp;";
    assert t[0] == '&' && t[1..] == "amp;";
    EscapeEachPlain("amp;");
  }

  lemma EscapeAmpersandOnce()
    ensures EscapeXml("&") == "&amp;"
  {
    EscapeXmlIsPerCharacter("&");
    var t: string := "&";
    assert t[0] == '&' && t[1..] == [];
  }

  /** A text without `&`, `<` and `>` is its own escape. */
  lemma {:induction false} EscapeEachPlain(s: string)
    requires '&' !in s && '<' !in s && '>' !in s
    ensures EscapeEach(s) == s
  {
    if s != [] {
      EscapeEachPlain(s[1..]);
      assert [s[0]] + s[1..] == s;
    }
  }

  // ---------------------------------------------------------------------
  // Undoing the escape.

  /** Replaces each entity by its character; None for a text escapeXml
      cannot produce (a bare `<` or `>`, or an `&` that begins no entity). */
  function Unescape(t: string): Option<string>
    decreases |t|
  {
    if t == [] then Some([])
    else if "&amp;" <= t then Prepend('&', Unescape(t[5..]))
    else if "&lt;" <= t then Prepend('<', Unescape(t[4..]))
    else if "&gt;" <= t then Prepend('>', Unescape(t[4..]))
    else if t[0] == '&' || t[0] == '<' || t[0] == '>' then None
    else Prepend(t[0], Unescape(t[1..]))
  }

  lemma UnescapeChar(x: char, t: string)
    ensures Unescape(EscapeChar(x) + t) == Prepend(x, Unescape(t))
  {
    var u := EscapeChar(x) + t;
    if x == '&' {
      assert "&amp;" <= u && u[5..] == t;
    } else if x == '<' {
      assert u[1] == 'l' && u[..4] == "&lt;" && u[4..] == t;
    } else if x == '>' {
      assert u[1] == 'g' && u[..4] == "&gt;" && u[4..] == t;
    } else {
      assert u[0] == x && u[1..] == t;
    }
  }

  /** Unescaping the escaped text gives the original back. */
  lemma {:induction false} UnescapeEscapeXml(s: string)
    ensures Unescape(EscapeXml(s)) == Some(s)
  {
    EscapeXmlIsPerCharacter(s);
    UnescapeEscapeEach(s);
  }

  lemma {:induction false} UnescapeEscapeEach(s: string)
    ensures Unescape(EscapeEach(s)) == Some(s)
  {
    if s != [] {
      UnescapeEscapeEach(s[1..]);
      UnescapeChar(s[0], EscapeEach(s[1..]));
      assert [s[0]] + s[1..] == s;
    }
  }

  /** A text that unescapes is exactly the escape of what it unescapes to,
      so escapeXml is a bijection onto the texts Unescape accepts. */
  lemma {:induction false} EscapeXmlOfUnescape(t: string)
    ensures Unescape(t).Some? ==> EscapeXml(Unescape(t).value) == t
    decreases |t|
  {
    var u := Unescape(t);
    if u.Some? {
      EscapeXmlIsPerCharacter(u.value);
      EscapeEachOfUnescape(t);
    }
  }

  lemma {:induction false} EscapeEachOfUnescape(t: string)
    ensures Unescape(t).Some? ==> EscapeEach(Unescape(t).value) == t
    decreases |t|
  {
    if t != [] && Unescape(t).Some? {
      var v := Unescape(t).value;
      if "&amp;" <= t {
        EscapeEachOfUnescape(t[5..]);
        assert v[1..] == Unescape(t[5..]).value;
        assert t == "&amp;" + t[5..];
      } else if "&lt;" <= t {
        EscapeEachOfUnescape(t[4..]);
        assert v[1..] == Unescape(t[4..]).value;
        assert t == "&lt;" + t[4..];
      } else if "&gt;" <= t {
        EscapeEachOfUnescape(t[4..]);
        assert v[1..] == Unescape(t[4..]).value;
        assert t == "&gt;" + t[4..];
      } else {
        EscapeEachOfUnescape(t[1..]);
        assert v[1..] == Unescape(t[1..]).value;
        assert t == [t[0]] + t[1..];
      }
    }
  }
}
