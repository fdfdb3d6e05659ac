/**
 The text of a strip region, on one line. Every run of line ends goes, with the blanks and
 tabs on either side of it; what this makes of a text is said line by line, by cutting it
 at its line ends, taking the blanks off the cut ends, and putting the lines together.
 */
module LineJoining {
  import opened Options

  predicate Blank(c: char) {
    c == '\t' || c == ' '
  }

  predicate LineEnd(c: char) {
    c == '\r' || c == '\n'
  }

  function SkipBlanks(s: string): (r: string)
    ensures |r| <= |s| && r == s[|s| - |r|..]
    ensures r != "" ==> !Blank(r[0])
  {
    if s != "" && Blank(s[0]) then SkipBlanks(s[1..]) else s
  }

  function SkipLineEnds(s: string): (r: string)
    ensures |r| <= |s| && r == s[|s| - |r|..]
    ensures s != "" && LineEnd(s[0]) ==> |r| < |s|
  {
    if s != "" && LineEnd(s[0]) then SkipLineEnds(s[1..]) else s
  }

  /** Deletes every match of [\t ]*[\r\n]+[\t ]*, leftmost and longest. */
  function JoinLines(s: string): string
    decreases |s|
  {
    if s == "" then ""
    else
      var t := SkipBlanks(s);
      if t != "" && LineEnd(t[0]) then JoinLines(SkipBlanks(SkipLineEnds(t)))
      else [s[0]] + JoinLines(s[1..])
  }

  predicate OneLine(s: string) {
    forall i :: 0 <= i < |s| ==> !LineEnd(s[i])
  }

  /** Blanks and the line ends behind them go. */
  lemma JoinLinesSkips(s: string)
    requires s != "" && SkipBlanks(s) != "" && LineEnd(SkipBlanks(s)[0])
    ensures JoinLines(s) == JoinLines(SkipBlanks(SkipLineEnds(SkipBlanks(s))))
    ensures |SkipBlanks(SkipLineEnds(SkipBlanks(s)))| < |s|
  {
    var t := SkipBlanks(s);
    assert SkipLineEnds(t) == SkipLineEnds(t[1..]);
  }

  /** Anything else stays. */
  lemma JoinLinesKeeps(s: string)
    requires s != "" && (SkipBlanks(s) == "" || !LineEnd(SkipBlanks(s)[0]))
    ensures JoinLines(s) == [s[0]] + JoinLines(s[1..]) && !LineEnd(s[0])
  {
    if !Blank(s[0]) { assert SkipBlanks(s) == s; }
  }

  lemma OneLineCons(c: char, s: string)
    requires !LineEnd(c) && OneLine(s)
    ensures OneLine([c] + s)
  {}

  /** Stripped text is a single line. */
  lemma {:induction false} JoinLinesJoins(s: string)
    ensures OneLine(JoinLines(s))
    decreases |s|
  {
    if s != "" {
      var t := SkipBlanks(s);
      if t != "" && LineEnd(t[0]) {
        JoinLinesSkips(s);
        JoinLinesJoins(SkipBlanks(SkipLineEnds(t)));
      } else {
        JoinLinesKeeps(s);
        JoinLinesJoins(s[1..]);
        OneLineCons(s[0], JoinLines(s[1..]));
      }
    }
  }

  /** A text without line ends is kept as it is: only blanks around line ends go. */
  lemma {:induction false} JoinLinesKeepsLine(s: string)
    requires OneLine(s)
    ensures JoinLines(s) == s
  {
    if s != "" {
      var t := SkipBlanks(s);
      assert t != "" ==> t[0] == s[|s| - |t|];
      JoinLinesKeeps(s);
      JoinLinesKeepsLine(s[1..]);
      HeadTail(s);
    }
  }

  // ----- which characters go -----

  lemma EndJoined(c: char, s: string)
    requires LineEnd(c)
    ensures JoinLines([c] + s) == JoinLines(SkipBlanks(SkipLineEnds(s)))
  {
    Cons(c, s);
    assert SkipBlanks([c] + s) == [c] + s;
    JoinLinesSkips([c] + s);
    assert SkipLineEnds([c] + s) == SkipLineEnds(s);
  }

  lemma BlankJoined(c: char, s: string)
    requires Blank(c) && s != "" && LineEnd(s[0])
    ensures JoinLines([c] + s) == JoinLines(s)
  {
    Cons(c, s);
    NothingToSkip(s);
    JoinLinesSkips([c] + s);
    JoinLinesSkips(s);
  }

  lemma CharKept(c: char, s: string)
    requires !LineEnd(c) && (Blank(c) ==> s != "" && !Blank(s[0]) && !LineEnd(s[0]))
    ensures JoinLines([c] + s) == [c] + JoinLines(s)
  {
    Cons(c, s);
    if Blank(c) { assert SkipBlanks(s) == s; }
    JoinLinesKeeps([c] + s);
  }

  /**
   In front of something visible, joining deletes a character exactly if it ends a line,
   and in front of a line end exactly if it is a blank or tab or ends a line.
   */
  lemma JoinedAwayExactly(c: char, s: string)
    requires s != "" && s[0] != ' ' && s[0] != '\t' && s[0] != '\r' && s[0] != '\n'
    ensures JoinLines([c] + s) == JoinLines(s) <==> c == '\r' || c == '\n'
    ensures JoinLines([c] + (['\n'] + s)) == JoinLines(s) <==> c == '\r' || c == '\n' || c == ' ' || c == '\t'
  {
    NoneSkipped(s);
    EndThen('\n', s);
    if LineEnd(c) {
      EndJoined(c, s);
      EndJoined(c, ['\n'] + s);
    } else {
      CharKept(c, s);
      if Blank(c) { BlankJoined(c, ['\n'] + s); } else { CharKept(c, ['\n'] + s); }
    }
  }

  lemma EndThen(c: char, s: string)
    requires LineEnd(c) && s != "" && !LineEnd(s[0]) && !Blank(s[0])
    ensures SkipLineEnds([c] + s) == s && JoinLines([c] + s) == JoinLines(s)
  {
    NoneSkipped(s);
    SkipEnds(c, s);
    EndJoined(c, s);
  }

  lemma NoneSkipped(s: string)
    requires s != "" && !LineEnd(s[0]) && !Blank(s[0])
    ensures SkipLineEnds(s) == s && SkipBlanks(s) == s
  {}

  // ----- joining, line by line -----

  /** The lines of a text, cut at every line end. */
  function Lines(s: string): (lines: seq<string>)
    ensures lines != []
  {
    if s == "" then [""]
    else if LineEnd(s[0]) then [""] + Lines(s[1..])
    else [[s[0]] + Lines(s[1..])[0]] + Lines(s[1..])[1..]
  }

  /** Without the blanks at the end. */
  function DropBlanks(s: string): string {
    if s != "" && Blank(s[|s| - 1]) then DropBlanks(s[..|s| - 1]) else s
  }

  /** Lines put together: blanks go on both sides of every line end, and nowhere else. */
  function Together(lines: seq<string>): string
    requires lines != []
    decreases |lines|
  {
    if |lines| == 1 then lines[0]
    else DropBlanks(lines[0]) + Together([SkipBlanks(lines[1])] + lines[2..])
  }

  lemma DropBlanksLast(front: string, c: char)
    ensures DropBlanks(front + [c]) == if Blank(c) then DropBlanks(front) else front + [c]
  {
    TakeDrop(front, [c]);
  }

  lemma {:induction false} DropBlanksCons(c: char, s: string)
    requires !Blank(c) || !AllBlank(s)
    ensures DropBlanks([c] + s) == [c] + DropBlanks(s)
    decreases |s|
  {
    if s == "" {
      Single(c);
      DropBlanksLast("", c);
    } else {
      var front, last := s[..|s| - 1], s[|s| - 1];
      LastApart(s);
      AllBlankLast(front, last);
      Assoc([c], front, [last]);
      DropBlanksLast([c] + front, last);
      DropBlanksLast(front, last);
      if Blank(last) { DropBlanksCons(c, front); }
    }
  }

  predicate AllBlank(s: string) {
    forall i :: 0 <= i < |s| ==> Blank(s[i])
  }

  lemma AllBlankFirst(c: char, s: string)
    ensures AllBlank([c] + s) <==> Blank(c) && AllBlank(s)
  {
    if AllBlank([c] + s) {
      assert ([c] + s)[0] == c;
      assert forall i :: 0 <= i < |s| ==> s[i] == ([c] + s)[i + 1];
    }
  }

  lemma AllBlankLast(s: string, c: char)
    ensures AllBlank(s + [c]) <==> AllBlank(s) && Blank(c)
  {
    if AllBlank(s + [c]) {
      assert (s + [c])[|s|] == c;
      assert forall i :: 0 <= i < |s| ==> s[i] == (s + [c])[i];
    }
  }

  lemma {:induction false} BlankOnly(s: string)
    ensures SkipBlanks(s) == "" <==> AllBlank(s)
  {
    if s != "" {
      BlankOnly(s[1..]);
      HeadTail(s);
      AllBlankFirst(s[0], s[1..]);
    }
  }

  lemma LastApart(s: string)
    requires s != ""
    ensures s == s[..|s| - 1] + [s[|s| - 1]]
  {}

  /** Blanks in front belong to the first line. */
  lemma {:induction false} LinesSkip(s: string)
    ensures Lines(SkipBlanks(s)) == [SkipBlanks(Lines(s)[0])] + Lines(s)[1..]
  {
    if s != "" && Blank(s[0]) {
      LinesSkip(s[1..]);
      HeadTail(s);
      LinesBlank(s[0], s[1..]);
    } else {
      HeadTail(Lines(s));
    }
  }

  /** A line end, with the blanks around it, goes. */
  lemma TogetherSkips(s: string)
    requires SkipBlanks(s) != "" && LineEnd(SkipBlanks(s)[0])
    ensures Together(Lines(s)) == Together(Lines(SkipBlanks(SkipBlanks(s)[1..])))
  {
    var rest := SkipBlanks(s)[1..];
    BlanksThenEnd(s);
    LinesSkip(rest);
    BlankOnly(Lines(s)[0]);
    AllBlankDropped(Lines(s)[0]);
    assert Lines(s)[1] == Lines(rest)[0] && Lines(s)[2..] == Lines(rest)[1..];
    Nothing(Together(Lines(SkipBlanks(rest))));
  }

  lemma {:induction false} BlanksThenEnd(s: string)
    requires SkipBlanks(s) != "" && LineEnd(SkipBlanks(s)[0])
    ensures SkipBlanks(Lines(s)[0]) == "" && Lines(s)[1..] == Lines(SkipBlanks(s)[1..])
  {
    HeadTail(s);
    if Blank(s[0]) {
      BlanksThenEnd(s[1..]);
      LinesBlank(s[0], s[1..]);
    } else {
      Cons("", Lines(s[1..]));
    }
  }

  lemma LinesBlank(c: char, s: string)
    requires Blank(c)
    ensures SkipBlanks([c] + s) == SkipBlanks(s)
    ensures var lines := Lines(s);
            Lines([c] + s)[1..] == lines[1..] && SkipBlanks(Lines([c] + s)[0]) == SkipBlanks(lines[0])
  {
    Cons(c, s);
    Cons(c, Lines(s)[0]);
    Cons([c] + Lines(s)[0], Lines(s)[1..]);
  }

  lemma {:induction false} AllBlankDropped(s: string)
    requires AllBlank(s)
    ensures DropBlanks(s) == ""
    decreases |s|
  {
    if s != "" {
      var front, last := s[..|s| - 1], s[|s| - 1];
      LastApart(s);
      AllBlankLast(front, last);
      DropBlanksLast(front, last);
      AllBlankDropped(front);
    }
  }

  /** Any other character stays. */
  lemma TogetherKeeps(c: char, s: string)
    requires !LineEnd(c) && (Blank(c) ==> SkipBlanks(s) == "" || !LineEnd(SkipBlanks(s)[0]))
    ensures Together(Lines([c] + s)) == [c] + Together(Lines(s))
  {
    var lines := Lines(s);
    if |lines| > 1 && Blank(c) { NotBlankLine(s); }
    TogetherFirst(c, lines[0], lines[1..]);
    HeadTail(lines);
    LinesKeep(c, s);
  }

  lemma LinesKeep(c: char, s: string)
    requires !LineEnd(c)
    ensures Lines([c] + s) == [[c] + Lines(s)[0]] + Lines(s)[1..]
  {
    Cons(c, s);
  }

  /** A character in front of the first line stays, unless it is one of the blanks at its end. */
  lemma TogetherFirst(c: char, first: string, more: seq<string>)
    requires more == [] || !Blank(c) || !AllBlank(first)
    ensures Together([[c] + first] + more) == [c] + Together([first] + more)
  {
    if more != [] {
      DropBlanksCons(c, first);
      TogetherTwo([c] + first, more);
      TogetherTwo(first, more);
      Assoc([c], DropBlanks(first), Together([SkipBlanks(more[0])] + more[1..]));
    }
  }

  lemma TogetherTwo(first: string, more: seq<string>)
    requires more != []
    ensures Together([first] + more) == DropBlanks(first) + Together([SkipBlanks(more[0])] + more[1..])
  {
    assert ([first] + more)[1] == more[0] && ([first] + more)[2..] == more[1..];
  }

  lemma NotBlankLine(s: string)
    requires |Lines(s)| > 1 && (SkipBlanks(s) == "" || !LineEnd(SkipBlanks(s)[0]))
    ensures !AllBlank(Lines(s)[0])
  {
    if AllBlank(Lines(s)[0]) {
      BlankOnly(Lines(s)[0]);
      LinesSkip(s);
      FirstLineEmpty(SkipBlanks(s));
    }
  }

  lemma FirstLineEmpty(s: string)
    requires |Lines(s)| > 1 && Lines(s)[0] == ""
    ensures s != "" && LineEnd(s[0])
  {}

  /**
   Joining is what it is meant to be: the text is cut into lines, the blanks at the end of
   every line but the last and in front of every line but the first go, and the rest is
   put together.
   */
  lemma {:induction false} JoinLinesIsTogether(s: string)
    ensures JoinLines(s) == Together(Lines(s))
    decreases |s|
  {
    if s != "" {
      var t := SkipBlanks(s);
      if t != "" && LineEnd(t[0]) {
        var u := SkipBlanks(t[1..]);
        JoinLinesIsTogether(u);
        TogetherSkips(s);
        JoinLinesOneEnd(s);
      } else {
        JoinLinesKeeps(s);
        JoinLinesIsTogether(s[1..]);
        HeadTail(s);
        TogetherKeeps(s[0], s[1..]);
      }
    }
  }

  /** One line end at a time. */
  lemma JoinLinesOneEnd(s: string)
    requires s != "" && SkipBlanks(s) != "" && LineEnd(SkipBlanks(s)[0])
    ensures JoinLines(s) == JoinLines(SkipBlanks(SkipBlanks(s)[1..]))
  {
    var rest := SkipBlanks(s)[1..];
    JoinLinesSkips(s);
    HeadTail(SkipBlanks(s));
    SkipEnds(SkipBlanks(s)[0], rest);
    if rest != "" && LineEnd(rest[0]) {
      NothingToSkip(rest);
      JoinLinesSkips(rest);
    }
  }

  lemma NothingToSkip(s: string)
    requires s != "" && LineEnd(s[0])
    ensures SkipBlanks(s) == s
  {}

  lemma SkipEnds(c: char, rest: string)
    requires LineEnd(c)
    ensures SkipLineEnds([c] + rest) == SkipLineEnds(rest)
    ensures rest == "" || !LineEnd(rest[0]) ==> SkipLineEnds(rest) == rest
  {
    Cons(c, rest);
  }
}
