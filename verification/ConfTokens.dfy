/** Cutting configuration text into tokens (srcs/Configuration/ConfFile.cpp:54-76). */
module ConfTokens {
  import opened Octets
  import opened Numbers

  predicate IsMetachar(c: char) { c == ';' || c == '{' || c == '}' }

  predicate IsComment(c: char) { c == '#' }

  /** Characters that end a word. */
  predicate EndsWord(c: char) {
    IsSpace(c) || IsMetachar(c) || IsComment(c)
  }

  /** Semicolon, braces and number sign end a word, and so does white space. */
  lemma CharTable(c: char)
    ensures IsMetachar(c) <==> c in ";{}"
    ensures IsComment(c) <==> c in "#"
    ensures EndsWord(c) <==> c in ";{}#" || c as int in {32, 9, 10, 11, 12, 13}
  {
    SpaceTable(c);
  }

  predicate IsMetatoken(t: string) { t == ";" || t == "{" || t == "}" }

  predicate IsWord(t: string) {
    t != "" && forall i :: 0 <= i < |t| ==> !EndsWord(t[i])
  }

  predicate IsToken(t: string) { IsMetatoken(t) || IsWord(t) }

  /** The tokens of the rest of a line, `pending` being the word that has begun. */
  function TokenizeFrom(line: string, pending: string): seq<string>
    decreases |line|
  {
    if line == "" || IsComment(line[0]) then (if pending == "" then [] else [pending])
    else if IsSpace(line[0]) || IsMetachar(line[0]) then
      (if pending == "" then [] else [pending]) + (if IsMetachar(line[0]) then [[line[0]]] else [])
      + TokenizeFrom(line[1..], "")
    else TokenizeFrom(line[1..], pending + [line[0]])
  }

  function TokenizeLine(line: string): seq<string> {
    TokenizeFrom(line, "")
  }

  function Tokenize(lines: seq<string>): seq<string>
    decreases |lines|
  {
    if lines == [] then [] else TokenizeLine(lines[0]) + Tokenize(lines[1..])
  }

  /** Every token is a metatoken or a word. */
  lemma {:induction false} TokensAreTokens(line: string, pending: string)
    requires pending == "" || IsWord(pending)
    ensures forall t <- TokenizeFrom(line, pending) :: IsToken(t)
    decreases |line|
  {
    if line != "" && !IsComment(line[0]) {
      if IsSpace(line[0]) || IsMetachar(line[0]) {
        TokensAreTokens(line[1..], "");
      } else {
        TokensAreTokens(line[1..], pending + [line[0]]);
      }
    }
  }

  // ---- Layout

  predicate AllSpaces(s: string) {
    forall i :: 0 <= i < |s| ==> IsSpace(s[i])
  }

  /** The text of tokens, each after its gap. */
  function Render(tokens: seq<string>, gaps: seq<string>): string
    requires |tokens| == |gaps|
    decreases |tokens|
  {
    if tokens == [] then "" else gaps[0] + tokens[0] + Render(tokens[1..], gaps[1..])
  }

  /** Gaps are white space, and there is some between two words. */
  predicate GoodGaps(tokens: seq<string>, gaps: seq<string>) {
    && |tokens| == |gaps|
    && (forall i :: 0 <= i < |gaps| ==> AllSpaces(gaps[i]) && IsToken(tokens[i]))
    && (forall i :: 0 < i < |gaps| && IsWord(tokens[i - 1]) && IsWord(tokens[i]) ==> gaps[i] != "")
  }

  /** What may follow the last token of a line: white space, and a comment. */
  predicate GoodTail(tail: string) {
    exists n :: 0 <= n <= |tail| && AllSpaces(tail[..n]) && (n == |tail| || tail[n] == '#')
  }

  /** A line that lays out the tokens. */
  ghost predicate LaysOut(line: string, tokens: seq<string>) {
    exists gaps, tail :: GoodGaps(tokens, gaps) && GoodTail(tail) && line == Render(tokens, gaps) + tail
  }

  lemma {:induction false} SkipGap(gap: string, rest: string)
    requires AllSpaces(gap)
    ensures TokenizeFrom(gap + rest, "") == TokenizeFrom(rest, "")
    decreases |gap|
  {
    if gap == "" {
      assert gap + rest == rest;
    } else {
      assert (gap + rest)[0] == gap[0] && (gap + rest)[1..] == gap[1..] + rest;
      SkipGap(gap[1..], rest);
    }
  }

  lemma {:induction false} ReadWord(word: string, rest: string, pending: string)
    requires forall i :: 0 <= i < |word| ==> !EndsWord(word[i])
    ensures TokenizeFrom(word + rest, pending) == TokenizeFrom(rest, pending + word)
    decreases |word|
  {
    if word == "" {
      assert word + rest == rest && pending + word == pending;
    } else {
      assert (word + rest)[0] == word[0] && (word + rest)[1..] == word[1..] + rest;
      ReadWord(word[1..], rest, pending + [word[0]]);
      assert pending + [word[0]] + word[1..] == pending + word;
    }
  }

  lemma FlushWord(word: string, rest: string)
    requires word != "" && (rest == "" || EndsWord(rest[0]))
    ensures TokenizeFrom(rest, word) == [word] + TokenizeFrom(rest, "")
  {
  }

  lemma ReadToken(t: string, rest: string)
    requires IsToken(t)
    requires IsWord(t) ==> rest == "" || EndsWord(rest[0])
    ensures TokenizeFrom(t + rest, "") == [t] + TokenizeFrom(rest, "")
  {
    if IsWord(t) {
      ReadWord(t, rest, "");
      assert "" + t == t;
      FlushWord(t, rest);
    } else {
      assert (t + rest)[0] == t[0] && (t + rest)[1..] == rest && [t[0]] == t;
    }
  }

  lemma {:induction false} ReadTail(tail: string)
    requires GoodTail(tail)
    ensures TokenizeFrom(tail, "") == []
  {
    var n :| 0 <= n <= |tail| && AllSpaces(tail[..n]) && (n == |tail| || tail[n] == '#');
    SkipGap(tail[..n], tail[n..]);
    assert tail[..n] + tail[n..] == tail;
  }

  lemma TailEndsWord(tail: string)
    requires GoodTail(tail) && tail != ""
    ensures EndsWord(tail[0])
  {
    var n :| 0 <= n <= |tail| && AllSpaces(tail[..n]) && (n == |tail| || tail[n] == '#');
    if n > 0 { assert tail[..n][0] == tail[0]; }
  }

  /** What follows a word ends it. */
  lemma NextEndsWord(tokens: seq<string>, gaps: seq<string>, tail: string)
    requires GoodGaps(tokens, gaps) && |tokens| >= 1 && IsWord(tokens[0]) && GoodTail(tail)
    ensures var rest := Render(tokens[1..], gaps[1..]) + tail; rest == "" || EndsWord(rest[0])
  {
    if |tokens| == 1 {
      assert Render(tokens[1..], gaps[1..]) + tail == tail;
      if tail != "" { TailEndsWord(tail); }
    } else {
      assert tokens[1..][0] == tokens[1] && gaps[1..][0] == gaps[1];
      var rest := Render(tokens[1..], gaps[1..]) + tail;
      if gaps[1] != "" {
        assert rest[0] == gaps[1][0];
      } else {
        assert rest[0] == tokens[1][0];
      }
    }
  }

  /** Any layout of tokens on a line, with any comment, is cut into these tokens. */
  lemma {:induction false} TokenizeRendered(tokens: seq<string>, gaps: seq<string>, tail: string)
    requires GoodGaps(tokens, gaps) && GoodTail(tail)
    ensures TokenizeLine(Render(tokens, gaps) + tail) == tokens
    decreases |tokens|
  {
    if tokens == [] {
      assert Render(tokens, gaps) + tail == tail;
      ReadTail(tail);
    } else {
      var rest := Render(tokens[1..], gaps[1..]) + tail;
      Assoc(gaps[0] + tokens[0], Render(tokens[1..], gaps[1..]), tail);
      Assoc(gaps[0], tokens[0], rest);
      if IsWord(tokens[0]) { NextEndsWord(tokens, gaps, tail); }
      SkipGap(gaps[0], tokens[0] + rest);
      ReadToken(tokens[0], rest);
      assert GoodGaps(tokens[1..], gaps[1..]) by { GoodGapsRest(tokens, gaps); }
      TokenizeRendered(tokens[1..], gaps[1..], tail);
    }
  }

  lemma GoodGapsRest(tokens: seq<string>, gaps: seq<string>)
    requires GoodGaps(tokens, gaps) && tokens != []
    ensures GoodGaps(tokens[1..], gaps[1..])
  {
    hide IsToken, IsWord, AllSpaces;
  }

  /** The lines of a file lay out its tokens, line by line. */
  ghost predicate FileLaysOut(lines: seq<string>, parts: seq<seq<string>>) {
    |lines| == |parts| && forall i :: 0 <= i < |lines| ==> LaysOut(lines[i], parts[i])
  }

  lemma {:induction false} TokenizeFile(lines: seq<string>, parts: seq<seq<string>>)
    requires FileLaysOut(lines, parts)
    ensures Tokenize(lines) == Concat(parts)
    decreases |lines|
  {
    if lines != [] {
      assert LaysOut(lines[0], parts[0]);
      var gaps, tail :| GoodGaps(parts[0], gaps) && GoodTail(tail) && lines[0] == Render(parts[0], gaps) + tail;
      TokenizeRendered(parts[0], gaps, tail);
      TokenizeFile(lines[1..], parts[1..]);
    }
  }

  // ---- Every line is a layout of its tokens

  ghost predicate Layout(text: string, tokens: seq<string>, gaps: seq<string>, tail: string) {
    GoodGaps(tokens, gaps) && GoodTail(tail) && text == Render(tokens, gaps) + tail
  }

  lemma SpaceBeforeTail(c: char, tail: string)
    requires IsSpace(c) && GoodTail(tail)
    ensures GoodTail([c] + tail)
  {
    var n :| 0 <= n <= |tail| && AllSpaces(tail[..n]) && (n == |tail| || tail[n] == '#');
    assert ([c] + tail)[..n + 1] == [c] + tail[..n];
  }

  lemma SpaceBeforeRender(c: char, tokens: seq<string>, gaps: seq<string>)
    requires |tokens| == |gaps| > 0
    ensures Render(tokens, [[c] + gaps[0]] + gaps[1..]) == [c] + Render(tokens, gaps)
  {
    var gaps' := [[c] + gaps[0]] + gaps[1..];
    assert gaps'[1..] == gaps[1..];
    var rest := Render(tokens[1..], gaps[1..]);
    assert [c] + gaps[0] + tokens[0] + rest == [c] + (gaps[0] + tokens[0] + rest);
  }

  lemma SpaceBeforeGap(c: char, tokens: seq<string>, gaps: seq<string>)
    requires IsSpace(c) && GoodGaps(tokens, gaps) && tokens != []
    ensures GoodGaps(tokens, [[c] + gaps[0]] + gaps[1..])
  {
    var gaps' := [[c] + gaps[0]] + gaps[1..];
    assert AllSpaces(gaps'[0]) by {
      hide IsToken, IsWord;
      assert AllSpaces(gaps[0]);
    }
    hide IsToken, IsWord, AllSpaces, IsSpace;
    assert forall i :: 0 < i < |gaps'| ==> gaps'[i] == gaps[i];
  }

  /** White space before a layout belongs to its first gap, or to its tail. */
  lemma SpaceBefore(c: char, text: string, tokens: seq<string>, gaps: seq<string>, tail: string)
    returns (gaps': seq<string>, tail': string)
    requires IsSpace(c) && Layout(text, tokens, gaps, tail)
    ensures Layout([c] + text, tokens, gaps', tail') && (gaps' != [] ==> gaps'[0] != "")
  {
    if tokens == [] {
      gaps', tail' := [], [c] + tail;
      assert Render(tokens, gaps) + tail == tail;
      hide GoodTail, IsSpace;
      SpaceBeforeTail(c, tail);
    } else {
      gaps', tail' := [[c] + gaps[0]] + gaps[1..], tail;
      SpaceBeforeGap(c, tokens, gaps);
      SpaceBeforeRender(c, tokens, gaps);
      hide GoodGaps, GoodTail, Render, IsSpace;
      Assoc([c], Render(tokens, gaps), tail);
    }
  }

  /** A token before a layout. */
  lemma TokenBefore(t: string, text: string, tokens: seq<string>, gaps: seq<string>, tail: string)
    requires IsToken(t) && Layout(text, tokens, gaps, tail)
    requires IsWord(t) && tokens != [] && IsWord(tokens[0]) ==> gaps[0] != ""
    ensures Layout(t + text, [t] + tokens, [""] + gaps, tail)
  {
    var ts, gs := [t] + tokens, [""] + gaps;
    assert ts[1..] == tokens && gs[1..] == gaps;
    assert Render(ts, gs) == "" + t + Render(tokens, gaps);
    assert forall i :: 0 < i < |gs| ==> gs[i] == gaps[i - 1] && ts[i] == tokens[i - 1];
    assert AllSpaces("");
    hide IsToken, IsWord, AllSpaces;
    Assoc(t, Render(tokens, gaps), tail);
  }

  lemma NoTokens(tail: string)
    requires tail == "" || tail[0] == '#'
    ensures Layout(tail, [], [], tail)
  {
    assert tail[..0] == "";
    assert GoodTail(tail);
  }

  /** White space or a metacharacter before a layout: what then ends a word. */
  lemma CharacterBefore(c: char, text: string, tokens: seq<string>, gaps: seq<string>, tail: string)
    returns (gaps': seq<string>, tail': string)
    requires (IsSpace(c) || IsMetachar(c)) && Layout(text, tokens, gaps, tail)
    ensures var tokens' := (if IsMetachar(c) then [[c]] else []) + tokens;
            && Layout([c] + text, tokens', gaps', tail') && |gaps'| == |tokens'|
            && (tokens' != [] && IsWord(tokens'[0]) ==> gaps'[0] != "")
  {
    if IsMetachar(c) {
      assert EndsWord([c][0]);
      assert IsToken([c]) && !IsWord([c]);
      gaps', tail' := [""] + gaps, tail;
      hide IsToken, IsWord, IsMetachar;
      TokenBefore([c], text, tokens, gaps, tail);
      assert |gaps| == |tokens|;
    } else {
      hide IsToken, IsWord;
      gaps', tail' := SpaceBefore(c, text, tokens, gaps, tail);
      assert [] + tokens == tokens;
    }
  }

  /** A pending word before a layout that begins with what ends it. */
  lemma PendingBefore(pending: string, text: string, tokens: seq<string>, gaps: seq<string>, tail: string)
    returns (gaps': seq<string>)
    requires Layout(text, tokens, gaps, tail) && |gaps| == |tokens|
    requires pending == "" || IsWord(pending)
    requires tokens != [] && IsWord(tokens[0]) ==> gaps[0] != ""
    ensures Layout(pending + text, (if pending == "" then [] else [pending]) + tokens, gaps', tail)
  {
    if pending == "" {
      gaps' := gaps;
      assert pending + text == text && [] + tokens == tokens;
    } else {
      assert IsToken(pending);
      gaps' := [""] + gaps;
      hide IsToken, IsWord, Layout;
      TokenBefore(pending, text, tokens, gaps, tail);
    }
  }

  lemma {:induction false} LayoutFrom(line: string, pending: string) returns (gaps: seq<string>, tail: string)
    requires pending == "" || IsWord(pending)
    ensures Layout(pending + line, TokenizeFrom(line, pending), gaps, tail)
    decreases |line|
  {
    hide Layout, IsToken;
    if line == "" || IsComment(line[0]) {
      tail := line;
      NoTokens(line);
      gaps := PendingBefore(pending, line, [], [], line);
      assert (if pending == "" then [] else [pending]) + [] == TokenizeFrom(line, pending);
    } else if IsSpace(line[0]) || IsMetachar(line[0]) {
      var c, rest, tokens := line[0], line[1..], TokenizeFrom(line[1..], "");
      gaps, tail := LayoutFrom(rest, "");
      assert "" + rest == rest && [c] + rest == line;
      hide IsWord, IsSpace, IsMetachar;
      gaps, tail := CharacterBefore(c, rest, tokens, gaps, tail);
      var mark := if IsMetachar(c) then [[c]] else [];
      Assoc(if pending == "" then [] else [pending], mark, tokens);
      gaps := PendingBefore(pending, line, mark + tokens, gaps, tail);
    } else {
      gaps, tail := LayoutFrom(line[1..], pending + [line[0]]);
      assert pending + [line[0]] + line[1..] == pending + line;
    }
  }

  /** A line lays out some tokens exactly if it is cut into them. */
  lemma LaysOutExactly(line: string, tokens: seq<string>)
    ensures LaysOut(line, tokens) <==> TokenizeLine(line) == tokens
  {
    if LaysOut(line, tokens) {
      var gaps, tail :| GoodGaps(tokens, gaps) && GoodTail(tail) && line == Render(tokens, gaps) + tail;
      TokenizeRendered(tokens, gaps, tail);
    }
    if TokenizeLine(line) == tokens {
      var gaps, tail := LayoutFrom(line, "");
      assert "" + line == line;
    }
  }

  /** So every file is a layout of its tokens. */
  lemma {:induction false} LinesOf(lines: seq<string>) returns (parts: seq<seq<string>>)
    ensures FileLaysOut(lines, parts) && Concat(parts) == Tokenize(lines)
    decreases |lines|
  {
    if lines == [] {
      parts := [];
    } else {
      LaysOutExactly(lines[0], TokenizeLine(lines[0]));
      var more := LinesOf(lines[1..]);
      parts := [TokenizeLine(lines[0])] + more;
      assert parts[1..] == more;
      hide LaysOut, TokenizeLine;
    }
  }
}
