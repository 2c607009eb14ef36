/** The JavaScript string built-ins the helpers of server.js rely on:
    `length`, `trim`, `split` (on one character and on `/\s+/`), `join`
    and the decimal form of an integer. Strings are sequences of Unicode
    scalar values; `Units` gives the UTF-16 length JavaScript reports. */
module JsString {

  /** The characters `\s` matches and `trim` removes: ECMAScript WhiteSpace
      (tab, vertical tab, form feed, ZWNBSP and the Zs space separators)
      and LineTerminator (LF, CR, LS, PS). */
  predicate IsWhiteSpace(c: char) {
    || c == '\t' || c == '\n' || c == '\U{B}' || c == '\U{C}' || c == '\r'
    || c == ' ' || c == '\U{A0}' || c == '\U{1680}'
    || ('\U{2000}' <= c <= '\U{200A}')
    || c == '\U{2028}' || c == '\U{2029}' || c == '\U{202F}' || c == '\U{205F}'
    || c == '\U{3000}' || c == '\U{FEFF}'
  }

  /** A maximal run of non-white-space characters, as `split(/\s+/)` yields
      from a trimmed, non-empty string. */
  predicate IsWord(w: string) {
    w != [] && forall i :: 0 <= i < |w| ==> !IsWhiteSpace(w[i])
  }

  /** `s.length`: characters beyond U+FFFF take two UTF-16 code units. */
  function Units(s: string): (n: nat)
    ensures n >= |s|
    ensures s != [] ==> n > 0
  {
    if s == [] then 0 else (if s[0] as int >= 0x1_0000 then 2 else 1) + Units(s[1..])
  }

  /** The length is at most twice the number of characters; it equals
      that number exactly when no character lies beyond U+FFFF, and is
      twice it exactly when all do. */
  lemma {:induction false} UnitsBounds(s: string)
    ensures Units(s) <= 2 * |s|
    ensures Units(s) == |s| <==> forall i :: 0 <= i < |s| ==> s[i] as int < 0x1_0000
    ensures Units(s) == 2 * |s| <==> forall i :: 0 <= i < |s| ==> s[i] as int >= 0x1_0000
  {
    if s != [] {
      UnitsBounds(s[1..]);
      assert forall i :: 1 <= i < |s| ==> s[i] == s[1..][i - 1];
    }
  }

  /** One character takes two units beyond U+FFFF and one otherwise;
      with UnitsAppend this fixes `Units` on every string. */
  lemma UnitsChar(c: char)
    ensures Units([c]) == if c as int >= 0x1_0000 then 2 else 1
  {
    assert [c][1..] == [];
  }

  /** `length` adds up over concatenation. */
  lemma {:induction false} UnitsAppend(a: string, b: string)
    ensures Units(a + b) == Units(a) + Units(b)
  {
    if a != [] {
      assert (a + b)[1..] == a[1..] + b;
      UnitsAppend(a[1..], b);
    } else {
      assert a + b == b;
    }
  }

  /** Concatenation regrouped, for proofs that meet both groupings. */
  lemma AppendAssoc<T>(a: seq<T>, b: seq<T>, c: seq<T>)
    ensures a + b + c == a + (b + c)
  {
  }

  /** `s.split(sep)` for a one-character separator: the pieces between
      separators, one more piece than there are separators. */
  function Split(s: string, sep: char): (parts: seq<string>)
    ensures |parts| >= 1
    ensures forall i :: 0 <= i < |parts| ==> sep !in parts[i]
  {
    if s == [] then [[]]
    else
      var rest := Split(s[1..], sep);
      if s[0] == sep then [[]] + rest
      else [[s[0]] + rest[0]] + rest[1..]
  }

  /** `parts.join(sep)` for a one-character separator. */
  function Join(parts: seq<string>, sep: char): string
  {
    if |parts| == 0 then []
    else if |parts| == 1 then parts[0]
    else parts[0] + [sep] + Join(parts[1..], sep)
  }

  /** Joining the pieces again gives back the split string. */
  lemma {:induction false} JoinSplit(s: string, sep: char)
    ensures Join(Split(s, sep), sep) == s
  {
    if s != [] {
      var rest := Split(s[1..], sep);
      JoinSplit(s[1..], sep);
      if s[0] != sep && |rest| > 1 {
        assert Join(rest, sep) == rest[0] + [sep] + Join(rest[1..], sep);
        assert ([[s[0]] + rest[0]] + rest[1..])[1..] == rest[1..];
      }
    }
  }

  /** A prefix free of the separator sticks to the first piece. */
  lemma {:induction false} SplitPrefix(p: string, t: string, sep: char)
    requires sep !in p
    ensures Split(p + t, sep) == [p + Split(t, sep)[0]] + Split(t, sep)[1..]
  {
    var parts := Split(t, sep);
    if p != [] {
      assert (p + t)[1..] == p[1..] + t;
      SplitPrefix(p[1..], t, sep);
      assert [p[0]] + (p[1..] + parts[0]) == p + parts[0];
    } else {
      assert p + t == t && p + parts[0] == parts[0];
      assert parts == [parts[0]] + parts[1..];
    }
  }

  /** Splitting a join of separator-free pieces gives the pieces back. */
  lemma {:induction false} SplitJoin(parts: seq<string>, sep: char)
    requires |parts| >= 1
    requires forall i :: 0 <= i < |parts| ==> sep !in parts[i]
    ensures Split(Join(parts, sep), sep) == parts
  {
    if |parts| == 1 {
      SplitPrefix(parts[0], [], sep);
      assert parts[0] + [] == parts[0];
    } else {
      var t := Join(parts[1..], sep);
      SplitJoin(parts[1..], sep);
      SplitPrefix(parts[0], [sep] + t, sep);
      assert parts[0] + [sep] + t == parts[0] + ([sep] + t);
      assert ([sep] + t)[1..] == t;
      assert Split([sep] + t, sep) == [[]] + parts[1..];
      assert parts[0] + [] == parts[0];
      assert parts == [parts[0]] + parts[1..];
    }
  }

  /** `s.split(sep)` splits at every separator: the first piece is what
      precedes the first separator, and rejoining the other pieces gives
      exactly what follows it. */
  lemma SplitAtFirst(s: string, sep: char, i: nat)
    requires i < |s| && s[i] == sep && sep !in s[..i]
    ensures Split(s, sep)[0] == s[..i]
    ensures Join(Split(s, sep)[1..], sep) == s[i + 1..]
  {
    var t := s[i + 1..];
    assert s == s[..i] + ([sep] + t);
    SplitPrefix(s[..i], [sep] + t, sep);
    assert ([sep] + t)[1..] == t;
    JoinSplit(t, sep);
  }

  /** Without a separator the string is its only piece. */
  lemma SplitNoSeparator(s: string, sep: char)
    requires sep !in s
    ensures Split(s, sep) == [s]
  {
    SplitPrefix(s, [], sep);
    assert s + [] == s;
  }

  /** Two separator-free pieces around one separator split back apart. */
  lemma SplitPair(x: string, y: string, sep: char)
    requires sep !in x && sep !in y
    ensures Split(x + [sep] + y, sep) == [x, y]
  {
    assert Join([x, y], sep) == x + [sep] + y;
    SplitJoin([x, y], sep);
  }

  /** `s.trimStart()`. */
  function TrimStart(s: string): (r: string)
    ensures |r| <= |s| && r == s[|s| - |r|..]
    ensures r == [] || !IsWhiteSpace(r[0])
  {
    if s != [] && IsWhiteSpace(s[0]) then TrimStart(s[1..]) else s
  }

  /** `s.trimEnd()`. */
  function TrimEnd(s: string): (r: string)
    ensures |r| <= |s| && r == s[..|r|]
    ensures r == [] || !IsWhiteSpace(r[|r| - 1])
  {
    if s != [] && IsWhiteSpace(s[|s| - 1]) then TrimEnd(s[..|s| - 1]) else s
  }

  /** `trimStart` removes white space only: the prefix it drops is all
      white space. */
  lemma {:induction false} TrimStartRemoves(s: string)
    ensures forall i :: 0 <= i < |s| - |TrimStart(s)| ==> IsWhiteSpace(s[i])
  {
    if s != [] && IsWhiteSpace(s[0]) {
      TrimStartRemoves(s[1..]);
      forall i | 0 <= i < |s| - |TrimStart(s)| ensures IsWhiteSpace(s[i]) {
        if i > 0 { assert s[i] == s[1..][i - 1]; }
      }
    }
  }

  /** `trimEnd` removes white space only: the suffix it drops is all
      white space. */
  lemma {:induction false} TrimEndRemoves(s: string)
    ensures forall i :: |TrimEnd(s)| <= i < |s| ==> IsWhiteSpace(s[i])
  {
    if s != [] && IsWhiteSpace(s[|s| - 1]) {
      TrimEndRemoves(s[..|s| - 1]);
      forall i | |TrimEnd(s)| <= i < |s| ensures IsWhiteSpace(s[i]) {
        if i < |s| - 1 { assert s[i] == s[..|s| - 1][i]; }
      }
    }
  }

  /** `s.trim()`. */
  function Trim(s: string): string {
    TrimEnd(TrimStart(s))
  }

  /** `s.split(/\s+/)`: the pieces between maximal runs of white space;
      a leading or trailing run yields an empty piece. */
  function SplitWhiteSpace(s: string): (parts: seq<string>)
    ensures |parts| >= 1
    ensures forall i, j :: 0 <= i < |parts| && 0 <= j < |parts[i]| ==> !IsWhiteSpace(parts[i][j])
    decreases |s|
  {
    if s == [] then [[]]
    else if IsWhiteSpace(s[0]) then [[]] + SplitWhiteSpace(TrimStart(s[1..]))
    else
      var rest := SplitWhiteSpace(s[1..]);
      [[s[0]] + rest[0]] + rest[1..]
  }

  /** A non-empty run of white space. */
  predicate IsBlankRun(r: string) {
    r != [] && forall i :: 0 <= i < |r| ==> IsWhiteSpace(r[i])
  }

  /** The runs of white space `split(/\s+/)` cuts at, in order. */
  function WhiteRuns(s: string): seq<string>
    decreases |s|
  {
    if s == [] then []
    else if IsWhiteSpace(s[0]) then
      var t := TrimStart(s[1..]);
      [s[..|s| - |t|]] + WhiteRuns(t)
    else WhiteRuns(s[1..])
  }

  /** The pieces with the runs put back between them. */
  function Weave(parts: seq<string>, runs: seq<string>): string
    requires |runs| + 1 == |parts|
  {
    if |runs| == 0 then parts[0] else parts[0] + runs[0] + Weave(parts[1..], runs[1..])
  }

  /** The pieces of `s.split(/\s+/)`, with a non-empty white-space run put
      back between each two neighbours, give `s` again. */
  predicate Weaves(s: string) {
    && |WhiteRuns(s)| + 1 == |SplitWhiteSpace(s)|
    && (forall k :: 0 <= k < |WhiteRuns(s)| ==> IsBlankRun(WhiteRuns(s)[k]))
    && Weave(SplitWhiteSpace(s), WhiteRuns(s)) == s
  }

  /** `s.split(/\s+/)` loses nothing but the white space it cuts at. With
      the pieces free of white space, this fixes the pieces. */
  lemma {:induction false} SplitWhiteSpaceWeaves(s: string)
    ensures |WhiteRuns(s)| + 1 == |SplitWhiteSpace(s)|
    ensures forall k :: 0 <= k < |WhiteRuns(s)| ==> IsBlankRun(WhiteRuns(s)[k])
    ensures Weave(SplitWhiteSpace(s), WhiteRuns(s)) == s
    decreases |s|
  {
    if s != [] {
      if IsWhiteSpace(s[0]) {
        SplitWhiteSpaceWeaves(TrimStart(s[1..]));
        WeavesAfterRun(s);
      } else {
        SplitWhiteSpaceWeaves(s[1..]);
        WeavesAfterChar(s);
      }
    }
  }

  lemma WeavesAfterRun(s: string)
    requires s != [] && IsWhiteSpace(s[0]) && Weaves(TrimStart(s[1..]))
    ensures Weaves(s)
  {
    var t := TrimStart(s[1..]);
    var r := s[..|s| - |t|];
    LeadingRunBlank(s);
    LeadingRunRest(s);
    SplitAfterRun(s);
    assert WhiteRuns(s) == [r] + WhiteRuns(t);
    WeavesCons(s, r, t);
  }

  lemma SplitAfterRun(s: string)
    requires s != [] && IsWhiteSpace(s[0])
    ensures SplitWhiteSpace(s) == [[]] + SplitWhiteSpace(TrimStart(s[1..]))
  {
  }


  /** A blank run in front of a string that weaves. */
  lemma WeavesCons(s: string, r: string, t: string)
    requires Weaves(t) && IsBlankRun(r) && s == r + t
    requires SplitWhiteSpace(s) == [[]] + SplitWhiteSpace(t)
    requires WhiteRuns(s) == [r] + WhiteRuns(t)
    ensures Weaves(s)
  {
    WeaveRun(SplitWhiteSpace(t), WhiteRuns(t), r);
    BlankRunsCons(WhiteRuns(t), r);
  }

  /** Putting a blank run and an empty piece in front. */
  lemma WeaveRun(parts: seq<string>, runs: seq<string>, r: string)
    requires |runs| + 1 == |parts|
    ensures Weave([[]] + parts, [r] + runs) == r + Weave(parts, runs)
  {
    assert ([[]] + parts)[1..] == parts && ([r] + runs)[1..] == runs;
    assert ([[]] + parts)[0] + ([r] + runs)[0] == r;
  }

  lemma BlankRunsCons(runs: seq<string>, r: string)
    requires IsBlankRun(r) && forall k :: 0 <= k < |runs| ==> IsBlankRun(runs[k])
    ensures forall k :: 0 <= k < |runs| + 1 ==> IsBlankRun(([r] + runs)[k])
  {
    forall k | 0 <= k < |runs| + 1 ensures IsBlankRun(([r] + runs)[k]) {
      if k > 0 { assert ([r] + runs)[k] == runs[k - 1]; }
    }
  }

  lemma WeavesAfterChar(s: string)
    requires s != [] && !IsWhiteSpace(s[0]) && Weaves(s[1..])
    ensures Weaves(s)
  {
    WeaveFront(SplitWhiteSpace(s[1..]), WhiteRuns(s[1..]), s[0]);
    assert [s[0]] + s[1..] == s;
  }

  /** A leading run of white space is a blank run ... */
  lemma LeadingRunBlank(s: string)
    requires s != [] && IsWhiteSpace(s[0])
    ensures IsBlankRun(s[..|s| - |TrimStart(s[1..])|])
  {
    var r := s[..|s| - |TrimStart(s[1..])|];
    TrimStartRemoves(s[1..]);
    forall i | 0 <= i < |r| ensures IsWhiteSpace(r[i]) {
      if i > 0 { assert r[i] == s[1..][i - 1]; }
    }
  }

  /** ... and the rest of the string follows it. */
  lemma LeadingRunRest(s: string)
    requires s != []
    ensures s[..|s| - |TrimStart(s[1..])|] + TrimStart(s[1..]) == s
  {
    var t := TrimStart(s[1..]);
    assert t == s[|s| - |t|..];
  }

  lemma WeaveFront(parts: seq<string>, runs: seq<string>, c: char)
    requires |runs| + 1 == |parts|
    ensures Weave([[c] + parts[0]] + parts[1..], runs) == [c] + Weave(parts, runs)
  {
    var front := [[c] + parts[0]] + parts[1..];
    if |runs| > 0 {
      assert front[1..] == parts[1..];
    }
  }

  /** A string without white space at either end is its own trim, and so
      is it with one space in front. */
  lemma TrimUnpadded(x: string)
    requires x != [] && !IsWhiteSpace(x[0]) && !IsWhiteSpace(x[|x| - 1])
    ensures Trim(x) == x
    ensures Trim(" " + x) == x
  {
    assert TrimStart(x) == x;
    assert TrimEnd(x) == x;
    TrimStartSpace(x);
  }

  /** `trimStart` drops a leading space. */
  lemma TrimStartSpace(x: string)
    ensures TrimStart(" " + x) == TrimStart(x)
  {
    var s := " " + x;
    assert s != [] && IsWhiteSpace(s[0]) && s[1..] == x;
  }

  /** The trim of a string is empty, or starts and ends with non-white space. */
  lemma TrimEdges(s: string)
    ensures var t := Trim(s); t == [] || (!IsWhiteSpace(t[0]) && !IsWhiteSpace(t[|t| - 1]))
  {
  }

  /** `s.split(/\s+/)` of a trimmed, non-empty string yields words only. */
  lemma {:induction false} SplitTrimmedGivesWords(s: string)
    requires s != [] && !IsWhiteSpace(s[|s| - 1])
    ensures forall i :: 0 <= i < |SplitWhiteSpace(s)| && (i > 0 || !IsWhiteSpace(s[0])) ==>
      IsWord(SplitWhiteSpace(s)[i])
    decreases |s|
  {
    var parts := SplitWhiteSpace(s);
    if IsWhiteSpace(s[0]) {
      var t := TrimStart(s[1..]);
      assert t != [] && t[|t| - 1] == s[|s| - 1] by {
        assert s[1..] != [] && s[1..][|s[1..]| - 1] == s[|s| - 1];
        TrimStartOfNonBlank(s[1..]);
      }
      SplitTrimmedGivesWords(t);
      assert parts[1..] == SplitWhiteSpace(t);
    } else if |s| > 1 {
      assert s[1..][|s[1..]| - 1] == s[|s| - 1];
      SplitTrimmedGivesWords(s[1..]);
      var rest := SplitWhiteSpace(s[1..]);
      assert parts[0] == [s[0]] + rest[0];
      forall j | 0 <= j < |parts[0]| ensures !IsWhiteSpace(parts[0][j]) {
        if j > 0 { assert parts[0][j] == rest[0][j - 1]; }
      }
      assert forall i :: 0 < i < |parts| ==> parts[i] == rest[i];
    }
  }

  lemma {:induction false} TrimStartOfNonBlank(s: string)
    requires s != [] && !IsWhiteSpace(s[|s| - 1])
    ensures TrimStart(s) != []
  {
    if IsWhiteSpace(s[0]) {
      assert s[1..] != [] && s[1..][|s[1..]| - 1] == s[|s| - 1];
      TrimStartOfNonBlank(s[1..]);
    }
  }

  /** Appending a piece adds a separator and the piece. */
  lemma JoinAppend(parts: seq<string>, p: string, sep: char)
    requires parts != []
    ensures Join(parts + [p], sep) == Join(parts, sep) + [sep] + p
  {
    if |parts| > 1 {
      assert (parts + [p])[1..] == parts[1..] + [p];
      JoinAppend(parts[1..], p, sep);
    }
  }

  /** The decimal form `String(n)` gives an integer-valued number of
      magnitude below 10^21: an optional minus sign and the digits. */
  function IntToDecimal(n: int): (r: string)
    ensures r != []
  {
    if n < 0 then "-" + NatToDecimal(-n) else NatToDecimal(n)
  }

  function NatToDecimal(n: nat): (r: string)
    ensures r != []
    ensures forall i :: 0 <= i < |r| ==> '0' <= r[i] <= '9'
  {
    var d := ('0' as int + n % 10) as char;
    if n < 10 then [d] else NatToDecimal(n / 10) + [d]
  }

  /** The number a string of decimal digits denotes. */
  function DigitsValue(s: string): nat
    requires forall i :: 0 <= i < |s| ==> '0' <= s[i] <= '9'
  {
    if s == [] then 0 else 10 * DigitsValue(s[..|s| - 1]) + (s[|s| - 1] as int - '0' as int)
  }

  /** The digits written for `n` denote `n` and have no leading zero, so
      they are its one canonical decimal form. */
  lemma {:induction false} NatToDecimalValue(n: nat)
    ensures DigitsValue(NatToDecimal(n)) == n
    ensures NatToDecimal(n)[0] == '0' <==> n == 0
    ensures n == 0 ==> |NatToDecimal(n)| == 1
  {
    if n >= 10 {
      NatToDecimalValue(n / 10);
      var r := NatToDecimal(n);
      assert r[..|r| - 1] == NatToDecimal(n / 10);
    }
  }

  /** A negative number is written as a minus sign and the digits of its
      magnitude; any other number as its digits alone. */
  lemma IntToDecimalValue(n: int)
    ensures IntToDecimal(n)[0] == '-' <==> n < 0
    ensures n < 0 ==> IntToDecimal(n)[1..] == NatToDecimal(-n)
    ensures n >= 0 ==> IntToDecimal(n) == NatToDecimal(n)
  {
    if n < 0 {
      assert IntToDecimal(n)[1..] == NatToDecimal(-n);
    }
  }
}
