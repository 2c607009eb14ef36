/** wrapText of server.js:55-69: the words of the trimmed text are laid
    out greedily on lines of at most `max` UTF-16 code units (32 when the
    caller gives none), and the lines are joined with newlines. A word
    longer than `max` is never split: it gets a line of its own. When the
    very first word is too long, the loop pushes the still-empty line
    first, so the result then starts with a newline. */
module TextWrap {
  import opened JsString

  /** The width wrapText uses when the caller gives none. */
  const DefaultWidth := 32

  /** The words of the text: those of its trim, none for a blank text. */
  function Words(text: string): seq<string> {
    if Trim(text) == [] then [] else SplitWhiteSpace(Trim(text))
  }

  /** The words of a non-blank text are non-empty, free of white space, and
      give back its trim when put back together with the white-space runs
      between them; a blank text has none. */
  lemma WordsOfText(text: string)
    ensures Trim(text) == [] ==> Words(text) == []
    ensures Trim(text) != [] ==>
      && (forall k :: 0 <= k < |Words(text)| ==> IsWord(Words(text)[k]))
      && |WhiteRuns(Trim(text))| + 1 == |Words(text)|
      && (forall k :: 0 <= k < |WhiteRuns(Trim(text))| ==> IsBlankRun(WhiteRuns(Trim(text))[k]))
      && Weave(Words(text), WhiteRuns(Trim(text))) == Trim(text)
  {
    if Trim(text) != [] {
      TrimEdges(text);
      SplitTrimmedGivesWords(Trim(text));
      SplitWhiteSpaceWeaves(Trim(text));
    }
  }

  /** The words on one output line: none on an empty line. */
  function LineWords(line: string): seq<string> {
    if line == [] then [] else Split(line, ' ')
  }

  /** The words on all output lines, in order. */
  function AllWords(lines: seq<string>): seq<string> {
    if lines == [] then [] else LineWords(lines[0]) + AllWords(lines[1..])
  }

  /** `lines` lays out `words` greedily at width `max`: the words come back
      in order and unaltered; a line longer than `max` holds a single word;
      the only empty line is a first line pushed ahead of an overlong first
      word; and no line could have taken the first word of the next line. */
  ghost predicate GreedyLayout(words: seq<string>, max: int, lines: seq<string>) {
    && AllWords(lines) == words
    && (forall i :: 0 <= i < |lines| ==> Units(lines[i]) <= max || ' ' !in lines[i])
    && (forall i :: 0 <= i < |lines| ==>
          (lines[i] == [] <==> i == 0 && words != [] && Units(words[0]) > max))
    && (forall i :: 0 <= i < |lines| - 1 && lines[i] != [] && lines[i + 1] != [] ==>
          Units(lines[i]) + 1 + Units(LineWords(lines[i + 1])[0]) > max)
  }

  /** wrapText(text, max). */
  method WrapText(text: string, max: int) returns (r: string)
    ensures r == [] <==> Trim(text) == []
    ensures r != [] ==> GreedyLayout(Words(text), max, Split(r, '\n'))
  {
    var words := SplitWhiteSpace(Trim(text));
    var blank := Trim(text) == [];
    if !blank {
      TrimEdges(text);
      SplitTrimmedGivesWords(Trim(text));
      BuildingStarts(words, max);
    }
    var lines: seq<string> := [];
    var line: string := "";
    ghost var start := 0;
    ghost var groups: seq<seq<string>> := [];
    for i := 0 to |words|
      invariant LoopInvariant(blank, words, max, i, start, line, lines, groups)
    {
      var w := words[i];
      if !blank {
        TestFacts(words, max, i, start, line);
      } else {
        assert line + " " + w == " ";
        assert Trim(" ") == [];
      }
      if Units(Trim(line + " " + w)) > max {
        if !blank {
          PushKeeps(words, max, i, start, line, lines, groups, Trim(line));
          groups := groups + [words[start..i]];
          start := i;
        }
        lines := lines + [Trim(line)];
        line := w;
      } else {
        if !blank {
          ExtendKeeps(words, max, i, start, line, lines, groups);
        }
        line := line + " " + w;
      }
    }
    if !blank {
      Close(words, max, start, line, lines, groups);
    } else {
      assert Trim(" ") == [] && Trim([]) == [];
    }
    if Trim(line) != [] {
      lines := lines + [Trim(line)];
    }
    r := Join(lines, '\n');
  }

  /** wrapText(text), with the default width. */
  method WrapTextDefault(text: string) returns (r: string)
    ensures r == [] <==> Trim(text) == []
    ensures r != [] ==> GreedyLayout(Words(text), DefaultWidth, Split(r, '\n'))
  {
    r := WrapText(text, DefaultWidth);
  }

  // ---------------------------------------------------------------------
  // The loop invariant and the facts that carry it.

  /** Each line is its group of words joined with single spaces. */
  ghost predicate JoinedFrom(lines: seq<string>, groups: seq<seq<string>>) {
    |lines| == |groups| && forall j :: 0 <= j < |groups| ==> lines[j] == Join(groups[j], ' ')
  }

  lemma SliceStep<T>(s: seq<T>, a: nat, i: nat)
    requires a <= i < |s|
    ensures s[a..i] + [s[i]] == s[a..i + 1] && s[i..i + 1] == [s[i]]
    ensures a == 0 ==> s[..i] + [s[i]] == s[..i + 1]
  {
  }

  lemma WholeSlices<T>(s: seq<T>, a: nat)
    requires a <= |s|
    ensures s[a..] == s[a..|s|] && s[..|s|] == s
  {
  }

  lemma JoinedFromPush(lines: seq<string>, groups: seq<seq<string>>, line: string, g: seq<string>)
    requires JoinedFrom(lines, groups) && line == Join(g, ' ')
    ensures JoinedFrom(lines + [line], groups + [g])
  {
  }

  function Flatten(groups: seq<seq<string>>): seq<string> {
    if groups == [] then [] else groups[0] + Flatten(groups[1..])
  }

  /** For a blank text `words` is `[""]`, and the one pass of the loop
      leaves `line` and the pushed lines blank; otherwise the layout is
      being built. */
  ghost predicate LoopInvariant(blank: bool, words: seq<string>, max: int, i: nat, start: nat,
                                line: string, lines: seq<string>, groups: seq<seq<string>>)
  {
    && (blank ==> words == [[]] && (lines == [] || lines == [[]]) && (line == [] || line == " "))
    && (blank && i == 0 ==> line == [] && lines == [])
    && (!blank ==> Building(words, max, i, start, line, lines, groups))
  }

  /** After `i` words: the pushed lines are the joined `groups`, and the
      current `line` holds `words[start..i]`. */
  ghost predicate Building(words: seq<string>, max: int, i: nat, start: nat,
                           line: string, lines: seq<string>, groups: seq<seq<string>>)
  {
    && Current(words, max, i, start, line)
    && Pushed(words, max, lines, groups)
    && Linked(words, max, i, start, lines, groups)
  }

  /** The current line holds `words[start..i]`, with a leading space when
      it was built from the empty line, and only exceeds `max` as a
      single word. */
  ghost predicate Current(words: seq<string>, max: int, i: nat, start: nat, line: string) {
    && words != []
    && (forall k :: 0 <= k < |words| ==> IsWord(words[k]))
    && start <= i <= |words|
    && (i == 0 <==> line == [])
    && (i > 0 ==> start < i)
    && (i > 0 ==> line == Join(words[start..i], ' ') || line == " " + Join(words[start..i], ' '))
    && (i > 0 ==> Units(Join(words[start..i], ' ')) <= max || i - start == 1)
  }

  /** The pushed lines: each joins a group of words; only a first line
      pushed ahead of an overlong first word is empty; a line longer than
      `max` holds one word; and no line had room for the next line's first
      word. */
  ghost predicate Pushed(words: seq<string>, max: int, lines: seq<string>, groups: seq<seq<string>>) {
    && words != []
    && JoinedFrom(lines, groups)
    && (forall j, k :: 0 <= j < |groups| && 0 <= k < |groups[j]| ==> IsWord(groups[j][k]))
    && (forall j :: 0 <= j < |groups| ==> (groups[j] == [] <==> j == 0 && Units(words[0]) > max))
    && (forall j :: 0 <= j < |groups| ==> Units(lines[j]) <= max || |groups[j]| <= 1)
    && NoRoom(lines, groups, max)
  }

  /** No line had room for the first word of the line after it. */
  ghost predicate NoRoom(lines: seq<string>, groups: seq<seq<string>>, max: int) {
    && |lines| == |groups|
    && forall j :: 0 <= j < |groups| - 1 && groups[j] != [] && groups[j + 1] != [] ==>
         Units(lines[j]) + 1 + Units(groups[j + 1][0]) > max
  }

  lemma NoRoomPush(lines: seq<string>, groups: seq<seq<string>>, max: int, line: string, g: seq<string>)
    requires NoRoom(lines, groups, max)
    requires groups != [] && groups[|groups| - 1] != [] && g != [] ==>
      Units(lines[|lines| - 1]) + 1 + Units(g[0]) > max
    ensures NoRoom(lines + [line], groups + [g], max)
  {
    var lines', groups' := lines + [line], groups + [g];
    forall j | 0 <= j < |groups'| - 1 && groups'[j] != [] && groups'[j + 1] != []
      ensures Units(lines'[j]) + 1 + Units(groups'[j + 1][0]) > max
    {
      if j < |groups| - 1 {
        assert lines'[j] == lines[j] && groups'[j + 1] == groups[j + 1];
      }
    }
  }

  /** How the pushed groups and the current line fit together: they hold
      the first `i` words, and the last pushed line had no room for the
      first word of the current line. */
  ghost predicate Linked(words: seq<string>, max: int, i: nat, start: nat,
                         lines: seq<string>, groups: seq<seq<string>>)
  {
    && start <= i <= |words|
    && |lines| == |groups|
    && (i == 0 ==> groups == [])
    && (i > 0 && groups == [] ==> words != [] && Units(words[0]) <= max)
    && Flatten(groups) + words[start..i] == words[..i]
    && (i > 0 && groups != [] && groups[|groups| - 1] != [] ==>
          start < |words| && Units(lines[|lines| - 1]) + 1 + Units(words[start]) > max)
  }

  /** Before the first word nothing is built. */
  lemma BuildingStarts(words: seq<string>, max: int)
    requires words != [] && forall k :: 0 <= k < |words| ==> IsWord(words[k])
    ensures Building(words, max, 0, 0, [], [], [])
  {
    assert words[0..0] == words[..0] == [];
  }

  /** A word that does not fit ends the current line and starts the next. */
  lemma PushKeeps(words: seq<string>, max: int, i: nat, start: nat,
                  line: string, lines: seq<string>, groups: seq<seq<string>>, pushed: string)
    requires Building(words, max, i, start, line, lines, groups) && i < |words|
    requires pushed == Join(words[start..i], ' ')
    requires i == 0 ==> Units(words[0]) > max
    requires i > 0 ==> Units(pushed) + 1 + Units(words[i]) > max
    ensures Building(words, max, i + 1, i, words[i], lines + [pushed], groups + [words[start..i]])
  {
    PushCurrent(words, max, i, start, line);
    PushPushed(words, max, i, start, line, lines, groups, pushed);
    PushLinked(words, max, i, start, line, lines, groups, pushed);
  }

  lemma PushCurrent(words: seq<string>, max: int, i: nat, start: nat, line: string)
    requires Current(words, max, i, start, line) && i < |words|
    ensures Current(words, max, i + 1, i, words[i])
  {
    SliceStep(words, i, i);
    assert Join(words[i..i + 1], ' ') == words[i];
  }

  lemma PushPushed(words: seq<string>, max: int, i: nat, start: nat,
                   line: string, lines: seq<string>, groups: seq<seq<string>>, pushed: string)
    requires Building(words, max, i, start, line, lines, groups) && i < |words|
    requires pushed == Join(words[start..i], ' ')
    requires i == 0 ==> Units(words[0]) > max
    ensures Pushed(words, max, lines + [pushed], groups + [words[start..i]])
  {
    var g := words[start..i];
    var lines', groups' := lines + [pushed], groups + [g];
    JoinedFromPush(lines, groups, pushed, g);
    NoRoomPush(lines, groups, max, pushed, g);
    forall j, k | 0 <= j < |groups'| && 0 <= k < |groups'[j]| ensures IsWord(groups'[j][k]) {
      if j < |groups| {
        assert groups'[j] == groups[j];
      } else {
        assert groups'[j][k] == words[start + k];
      }
    }
    forall j | 0 <= j < |groups'|
      ensures (groups'[j] == [] <==> j == 0 && Units(words[0]) > max)
      ensures Units(lines'[j]) <= max || |groups'[j]| <= 1
    {
      if j < |groups| {
        assert groups'[j] == groups[j] && lines'[j] == lines[j];
      }
    }
  }

  lemma PushLinked(words: seq<string>, max: int, i: nat, start: nat,
                   line: string, lines: seq<string>, groups: seq<seq<string>>, pushed: string)
    requires Building(words, max, i, start, line, lines, groups) && i < |words|
    requires pushed == Join(words[start..i], ' ')
    requires i > 0 ==> Units(pushed) + 1 + Units(words[i]) > max
    ensures Linked(words, max, i + 1, i, lines + [pushed], groups + [words[start..i]])
  {
    FlattenAppend(groups, words[start..i]);
    SliceStep(words, i, i);
    SliceStep(words, 0, i);
  }

  /** A word that fits is added to the current line. */
  lemma ExtendKeeps(words: seq<string>, max: int, i: nat, start: nat,
                    line: string, lines: seq<string>, groups: seq<seq<string>>)
    requires Building(words, max, i, start, line, lines, groups) && i < |words|
    requires Units(Trim(line + " " + words[i])) <= max
    ensures Building(words, max, i + 1, start, line + " " + words[i], lines, groups)
  {
    SliceStep(words, start, i);
    if i == 0 {
      FirstStep(words[0], line);
    } else {
      JoinStep(words[start..i], words[i], line);
    }
    ExtendLinked(words, max, i, start, lines, groups);
  }

  lemma ExtendLinked(words: seq<string>, max: int, i: nat, start: nat,
                     lines: seq<string>, groups: seq<seq<string>>)
    requires Linked(words, max, i, start, lines, groups) && i < |words|
    requires i == 0 ==> Units(words[0]) <= max
    ensures Linked(words, max, i + 1, start, lines, groups)
  {
    SliceStep(words, start, i);
    SliceStep(words, 0, i);
    AppendAssoc(Flatten(groups), words[start..i], [words[i]]);
  }

  /** After the last word the trimmed current line is pushed, and the lines
      form a greedy layout that the newline join keeps apart. */
  lemma Close(words: seq<string>, max: int, start: nat,
              line: string, lines: seq<string>, groups: seq<seq<string>>)
    requires Building(words, max, |words|, start, line, lines, groups)
    ensures Trim(line) != []
    ensures Join(lines + [Trim(line)], '\n') != []
    ensures Split(Join(lines + [Trim(line)], '\n'), '\n') == lines + [Trim(line)]
    ensures GreedyLayout(words, max, lines + [Trim(line)])
  {
    WholeSlices(words, start);
    TrimOfLine(words[start..], line);
    CloseGroups(words, max, start, line, lines, groups, Trim(line));
    Finish(words, max, lines + [Trim(line)], groups + [words[start..]]);
    if lines != [] {
      JoinAppend(lines, Trim(line), '\n');
    }
  }

  lemma CloseGroups(words: seq<string>, max: int, start: nat, line: string,
                    lines: seq<string>, groups: seq<seq<string>>, last: string)
    requires Building(words, max, |words|, start, line, lines, groups)
    requires last == Join(words[start..], ' ')
    ensures Pushed(words, max, lines + [last], groups + [words[start..]])
    ensures Flatten(groups + [words[start..]]) == words
  {
    var g := words[start..];
    WholeSlices(words, start);
    JoinedFromPush(lines, groups, last, g);
    NoRoomPush(lines, groups, max, last, g);
    FlattenAppend(groups, g);
  }

  /** The current line, trimmed, is its words joined with spaces. */
  lemma TrimOfLine(g: seq<string>, line: string)
    requires g != [] && forall k :: 0 <= k < |g| ==> IsWord(g[k])
    requires line == Join(g, ' ') || line == " " + Join(g, ' ')
    ensures Trim(line) == Join(g, ' ') != []
  {
    JoinedWordsEdges(g);
    TrimUnpadded(Join(g, ' '));
  }

  /** The loop test and the pushed line, in terms of the words alone. */
  lemma TestFacts(words: seq<string>, max: int, i: nat, start: nat, line: string)
    requires Current(words, max, i, start, line) && i < |words|
    ensures Trim(line) == Join(words[start..i], ' ')
    ensures i == 0 ==> Units(Trim(line + " " + words[i])) == Units(words[0])
    ensures i > 0 ==>
      Units(Trim(line + " " + words[i])) == Units(Join(words[start..i], ' ')) + 1 + Units(words[i])
  {
    if i == 0 {
      FirstStep(words[0], line);
      assert words[start..i] == [];
    } else {
      SliceStep(words, start, i);
      JoinStep(words[start..i], words[i], line);
    }
  }

  /** The first word after the empty line. */
  lemma FirstStep(w: string, line: string)
    requires IsWord(w) && line == []
    ensures Trim(line) == [] && Trim(line + " " + w) == w
    ensures line + " " + w == " " + Join([w], ' ')
  {
    TrimUnpadded(w);
    assert line + " " + w == " " + w;
  }

  /** Adding a word to a non-empty current line. */
  lemma JoinStep(cur: seq<string>, w: string, line: string)
    requires cur != [] && IsWord(w) && forall k :: 0 <= k < |cur| ==> IsWord(cur[k])
    requires line == Join(cur, ' ') || line == " " + Join(cur, ' ')
    ensures Trim(line) == Join(cur, ' ')
    ensures Trim(line + " " + w) == Join(cur + [w], ' ')
    ensures Units(Join(cur + [w], ' ')) == Units(Join(cur, ' ')) + 1 + Units(w)
    ensures line + " " + w == Join(cur + [w], ' ') || line + " " + w == " " + Join(cur + [w], ' ')
  {
    JoinStepTrim(cur, w, line);
    JoinStepUnits(cur, w);
  }

  lemma JoinStepTrim(cur: seq<string>, w: string, line: string)
    requires cur != [] && IsWord(w) && forall k :: 0 <= k < |cur| ==> IsWord(cur[k])
    requires line == Join(cur, ' ') || line == " " + Join(cur, ' ')
    ensures Trim(line) == Join(cur, ' ')
    ensures Trim(line + " " + w) == Join(cur + [w], ' ')
    ensures line + " " + w == Join(cur + [w], ' ') || line + " " + w == " " + Join(cur + [w], ' ')
  {
    var joined := Join(cur, ' ');
    JoinedEdges(cur);
    JoinAppend(cur, w, ' ');
    assert Join(cur + [w], ' ') == joined + " " + w;
    if line == joined {
      PaddedTrim(joined, w, line);
    } else {
      PaddedTrim(joined, w, line);
      Regroup(joined, w);
    }
  }

  lemma JoinedEdges(g: seq<string>)
    requires g != [] && forall k :: 0 <= k < |g| ==> IsWord(g[k])
    ensures var s := Join(g, ' '); s != [] && !IsWhiteSpace(s[0]) && !IsWhiteSpace(s[|s| - 1])
  {
    JoinedWordsEdges(g);
  }

  lemma JoinStepUnits(cur: seq<string>, w: string)
    requires cur != []
    ensures Units(Join(cur + [w], ' ')) == Units(Join(cur, ' ')) + 1 + Units(w)
  {
    JoinAppend(cur, w, ' ');
    UnitsAppend(Join(cur, ' ') + " ", w);
    UnitsAppend(Join(cur, ' '), " ");
  }

  lemma PaddedTrim(joined: string, w: string, line: string)
    requires joined != [] && !IsWhiteSpace(joined[0]) && !IsWhiteSpace(joined[|joined| - 1])
    requires IsWord(w)
    requires line == joined || line == " " + joined
    ensures Trim(line) == joined
    ensures Trim(line + " " + w) == joined + " " + w
  {
    var next := joined + " " + w;
    assert next[0] == joined[0];
    assert next[|next| - 1] == w[|w| - 1];
    TrimUnpadded(joined);
    TrimUnpadded(next);
    if line != joined {
      Regroup(joined, w);
    }
  }

  lemma Regroup(a: string, b: string)
    ensures " " + a + " " + b == " " + (a + " " + b)
  {
  }

  /** Words joined with spaces start and end with a word character and hold
      no white space but the spaces. */
  lemma {:induction false} JoinedWordsEdges(g: seq<string>)
    requires g != [] && forall k :: 0 <= k < |g| ==> IsWord(g[k])
    ensures var s := Join(g, ' ');
      && s != [] && !IsWhiteSpace(s[0]) && !IsWhiteSpace(s[|s| - 1])
      && forall k :: 0 <= k < |s| ==> s[k] == ' ' || !IsWhiteSpace(s[k])
  {
    if |g| > 1 {
      JoinedWordsEdges(g[1..]);
      var t := Join(g[1..], ' ');
      var s := g[0] + [' '] + t;
      assert Join(g, ' ') == s;
      forall k | 0 <= k < |s| ensures s[k] == ' ' || !IsWhiteSpace(s[k]) {
        if k > |g[0]| { assert s[k] == t[k - |g[0]| - 1]; }
      }
    }
  }

  lemma {:induction false} FlattenAppend(groups: seq<seq<string>>, g: seq<string>)
    ensures Flatten(groups + [g]) == Flatten(groups) + g
  {
    if groups == [] {
      assert Flatten([g]) == g + Flatten([]);
    } else {
      assert (groups + [g])[1..] == groups[1..] + [g];
      FlattenAppend(groups[1..], g);
    }
  }

  /** The words on the joined groups are the words of the groups. */
  lemma {:induction false} AllWordsOfLines(lines: seq<string>, groups: seq<seq<string>>)
    requires JoinedFrom(lines, groups)
    requires forall j, k :: 0 <= j < |groups| && 0 <= k < |groups[j]| ==> IsWord(groups[j][k])
    ensures AllWords(lines) == Flatten(groups)
  {
    if groups != [] {
      AllWordsOfLines(lines[1..], groups[1..]);
      LineWordsOfGroup(groups[0]);
    }
  }

  /** The words of one line are the group it was joined from. */
  lemma LineWordsOfGroup(g: seq<string>)
    requires forall k :: 0 <= k < |g| ==> IsWord(g[k])
    ensures LineWords(Join(g, ' ')) == g
    ensures g != [] ==> Join(g, ' ') != [] && (|g| == 1 <==> ' ' !in Join(g, ' '))
  {
    if g != [] {
      JoinedWordsEdges(g);
      forall k | 0 <= k < |g| ensures ' ' !in g[k] {
        assert IsWord(g[k]);
      }
      SplitJoin(g, ' ');
      if |g| > 1 {
        assert Join(g, ' ')[|g[0]|] == ' ';
      }
    }
  }

  /** The finished groups give a greedy layout, and the joined text splits
      back into its lines. */
  lemma Finish(words: seq<string>, max: int, lines: seq<string>, groups: seq<seq<string>>)
    requires Pushed(words, max, lines, groups) && groups != []
    requires Flatten(groups) == words
    requires forall k :: 0 <= k < |words| ==> IsWord(words[k])
    ensures Split(Join(lines, '\n'), '\n') == lines
    ensures GreedyLayout(words, max, lines)
  {
    forall j | 0 <= j < |lines| ensures '\n' !in lines[j] {
      if groups[j] != [] {
        JoinedWordsEdges(groups[j]);
      }
    }
    SplitJoin(lines, '\n');
    AllWordsOfLines(lines, groups);
    forall j | 0 <= j < |lines|
      ensures LineWords(lines[j]) == groups[j]
      ensures groups[j] != [] ==> lines[j] != [] && (|groups[j]| == 1 <==> ' ' !in lines[j])
    {
      LineWordsOfGroup(groups[j]);
    }
  }
}
