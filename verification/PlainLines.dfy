/**
 A file of one assignment, or of a header and one, as its lines and as what they say. The
 name has white space around it, and so has the value, which is on the line; the white
 space does not matter, and neither does which of the line ends is used, whether they are
 fixed or not.
 */
module PlainLines {
  import opened Options
  import opened PhpStrings
  import opened ConfigLexer
  import opened ConfigStore
  import opened ConfigHidden

  // ----- an assignment, as its author means it -----

  /** White space within a line. */
  predicate Gap(s: string) {
    forall i :: 0 <= i < |s| ==> s[i] == ' ' || s[i] == '\t' || s[i] == 12 as char
  }

  /** What may stand behind a value without being part of it. */
  predicate Padding(opts: Settings, s: string) {
    forall i :: 0 <= i < |s| ==>
      s[i] == ' ' || s[i] == '\t' || s[i] == '\0' || s[i] == 11 as char || (s[i] == '\r' && !opts.fixNewlines)
  }

  /** Letters, digits and underscores. */
  predicate Word(name: string) {
    name != "" && forall i :: 0 <= i < |name| ==> Letter(name[i])
  }

  predicate Letter(c: char) {
    'a' <= c <= 'z' || 'A' <= c <= 'Z' || '0' <= c <= '9' || c == '_'
  }

  /** One line of text that begins and ends with something to be seen, and does not open a multiline value. */
  predicate Body(opts: Settings, s: string) {
    && '\n' !in s && (opts.fixNewlines ==> '\r' !in s)
    && (s != "" ==>
          && s[0] != ' ' && s[0] != '\t' && s[0] != 12 as char && s[0] != '\r'
          && var last := s[|s| - 1];
             last != ' ' && last != '\t' && last != '\r' && last != '\0' && last != 11 as char)
    && !(|s| >= 3 && s[0] == '"' && s[1] == '"' && s[2] == '"')
  }

  datatype Spelled = Spelled(
    lead: string, hidden: bool, name: string, before: string, behind: string, body: string, pad: string)

  predicate WellSpelled(opts: Settings, a: Spelled) {
    Gap(a.lead) && Word(a.name) && Gap(a.before) && Gap(a.behind) && Body(opts, a.body) && Padding(opts, a.pad)
  }

  function Key(a: Spelled): string {
    (if a.hidden then "." else "") + a.name
  }

  function Spell(a: Spelled): string {
    a.lead + (Key(a) + (a.before + ("=" + (a.behind + (a.body + a.pad)))))
  }

  /** The text in matching quotes, or all of it. */
  function Inner(body: string): string {
    if |body| >= 2 && body[0] == body[|body| - 1] && (body[0] == '\'' || body[0] == '"') then body[1..|body| - 1]
    else body
  }

  // ----- line ends -----

  /** Each \r\n and each \r that is none becomes one newline; everything else stays. */
  lemma {:induction false} FixesEnds(a: string, b: string)
    requires '\r' !in a
    ensures FixNewlines(a + b) == a + FixNewlines(b)
    ensures FixNewlines(a + ("\r\n" + b)) == a + ("\n" + FixNewlines(b))
    ensures b == "" || b[0] != '\n' ==> FixNewlines(a + ("\r" + b)) == a + ("\n" + FixNewlines(b))
  {
    FixOver(a, b);
    FixOver(a, "\r\n" + b);
    FixOver(a, "\r" + b);
    TakeDrop("\r\n", b);
    TakeDrop("\r", b);
    assert b != "" ==> ("\r" + b)[1] == b[0];
  }

  lemma {:induction false} FixOver(a: string, b: string)
    requires '\r' !in a
    ensures FixNewlines(a + b) == a + FixNewlines(b)
  {
    if a == "" {
      Nothing(b);
      Nothing(FixNewlines(b));
    } else {
      HeadTail(a);
      Assoc([a[0]], a[1..], b);
      Cons(a[0], a[1..] + b);
      assert forall c :: c in a[1..] ==> c in a;
      FixOver(a[1..], b);
      Assoc([a[0]], a[1..], FixNewlines(b));
    }
  }

  predicate LineEnd(eol: string) {
    eol == "\n" || eol == "\r\n"
  }

  /** A line end after the fixing of newlines. */
  function EndFixed(opts: Settings, eol: string): string {
    if opts.fixNewlines && eol == "\r\n" then "\n" else eol
  }

  lemma FixedLine(opts: Settings, line: string, eol: string, rest: string)
    requires (eol == "" || LineEnd(eol)) && (opts.fixNewlines ==> '\r' !in line)
    ensures Fixed(opts, line + (eol + rest)) == line + (EndFixed(opts, eol) + Fixed(opts, rest))
  {
    if opts.fixNewlines {
      FixesEnds(line, rest);
      FixesEnds(line + "\n", rest);
      Assoc(line, "\n", rest);
      Assoc(line, "\n", FixNewlines(rest));
      Nothing(rest);
      Nothing(FixNewlines(rest));
    }
  }

  lemma SplitOne(line: string, end: string, rest: string)
    requires '\n' !in line && LineEnd(end)
    ensures SplitLines(line + (end + rest)) == [line + end] + SplitLines(rest)
  {
    var whole := line + end;
    assert Ended(whole) by { assert whole[..|whole| - 1] == if end == "\n" then line else line + "\r"; }
    LineLengthOf(whole, rest);
    Assoc(line, end, rest);
    TakeDrop(whole, rest);
  }

  lemma SplitLast(line: string)
    requires line != "" && '\n' !in line
    ensures SplitLines(line) == [line]
  {
    LineLengthOf(line, "");
    Nothing(line);
    assert line[..|line|] == line && line[|line|..] == "";
  }

  // ----- reading the line -----

  lemma {:induction false} SpacesGap(gap: string, rest: string)
    requires Gap(gap)
    ensures Spaces(gap + rest) == |gap| + Spaces(rest)
  {
    if gap == "" {
      Nothing(rest);
    } else {
      HeadTail(gap);
      Assoc([gap[0]], gap[1..], rest);
      Cons(gap[0], gap[1..] + rest);
      assert Gap(gap[1..]) by { assert forall i :: 0 <= i < |gap| - 1 ==> gap[1..][i] == gap[i + 1]; }
      SpacesGap(gap[1..], rest);
    }
  }

  lemma {:induction false} WordCharsWord(name: string, rest: string)
    requires Word(name) && (rest == "" || !WordChar(rest[0]))
    ensures WordChars(name + rest) == |name|
  {
    HeadTail(name);
    Assoc([name[0]], name[1..], rest);
    Cons(name[0], name[1..] + rest);
    if name[1..] != "" {
      assert Word(name[1..]) by { assert forall i :: 0 <= i < |name| - 1 ==> name[1..][i] == name[i + 1]; }
      WordCharsWord(name[1..], rest);
    } else {
      Nothing(rest);
    }
  }

  /** Behind the name: white space, the equals sign, white space and the rest. */
  lemma Behind(before: string, behind: string, rest: string)
    requires Gap(before) && Gap(behind)
    ensures var t := before + ("=" + (behind + rest));
            && t != "" && !WordChar(t[0]) && Spaces(t) == |before| && t[|before|..] == "=" + (behind + rest)
            && Spaces(behind + rest) == |behind| + Spaces(rest)
            && (behind + rest)[Spaces(behind + rest)..] == rest[Spaces(rest)..]
  {
    var tail := behind + rest;
    BehindGap(before, tail);
    BehindGap2(behind, rest);
  }

  lemma BehindGap(gap: string, tail: string)
    requires Gap(gap)
    ensures var t := gap + ("=" + tail); t != "" && !WordChar(t[0]) && Spaces(t) == |gap| && t[|gap|..] == "=" + tail
  {
    SpacesGap(gap, "=" + tail);
    TakeDrop(gap, "=" + tail);
    assert ("=" + tail)[0] == '=';
    assert (gap + ("=" + tail))[0] == if gap == "" then '=' else gap[0];
  }

  lemma BehindGap2(gap: string, rest: string)
    requires Gap(gap)
    ensures Spaces(gap + rest) == |gap| + Spaces(rest) && (gap + rest)[Spaces(gap + rest)..] == rest[Spaces(rest)..]
  {
    SpacesGap(gap, rest);
    DropOver(gap, rest, Spaces(rest));
  }

  lemma AssignmentParts(line: string, lead: string, key: string, dot: nat, t: string, n: nat, v: string)
    requires line == lead + (key + t) && Spaces(line) == |lead|
    requires key != "" && dot == (if key[0] == '.' then 1 else 0) && WordChars(key[dot..] + t) == |key| - dot > 0
    requires Spaces(t) == n && n < |t| && t[n] == '=' && t[n..][1..][Spaces(t[n..][1..])..] == v
    ensures AssignmentOf(line) == Some(Assignment(key, v))
  {
    TakeDrop(lead, key + t);
    assert (key + t)[0] == key[0];
    DropOver2(key, t, dot);
    TakeDrop(key, t);
  }

  lemma DropOver2(a: string, b: string, k: nat)
    requires k <= |a|
    ensures (a + b)[k..] == a[k..] + b
  {}

  lemma AssignmentFound(opts: Settings, a: Spelled, end: string)
    requires WellSpelled(opts, a)
    ensures var rest := a.body + (a.pad + end);
            AssignmentOf(Spell(a) + end) == Some(Assignment(Key(a), rest[Spaces(rest)..]))
  {
    var rest := a.body + (a.pad + end);
    var t, key := a.before + ("=" + (a.behind + rest)), Key(a);
    SpelledWith(a, end);
    Behind(a.before, a.behind, rest);
    assert key[0] == (if a.hidden then '.' else a.name[0]) && !Space(key[0]);
    SpacesGap(a.lead, key + t);
    assert (key + t)[0] == key[0];
    var dot := if a.hidden then 1 else 0;
    assert key[dot..] == a.name;
    WordCharsWord(a.name, t);
    TakeDrop("=", a.behind + rest);
    AssignmentParts(Spell(a) + end, a.lead, key, dot, t, |a.before|, rest[Spaces(rest)..]);
  }

  lemma SpelledWith(a: Spelled, end: string)
    ensures Spell(a) + end == a.lead + (Key(a) + (a.before + ("=" + (a.behind + (a.body + (a.pad + end))))))
  {
    var v5 := a.body + a.pad;
    var v4 := a.behind + v5;
    var v3 := "=" + v4;
    var v2 := a.before + v3;
    var v1 := Key(a) + v2;
    Assoc(a.lead, v1, end);
    Assoc(Key(a), v2, end);
    Assoc(a.before, v3, end);
    Assoc("=", v4, end);
    Assoc(a.behind, v5, end);
    Assoc(a.body, a.pad, end);
  }

  // ----- reading the value -----

  predicate Trimmed(s: string) {
    forall i :: 0 <= i < |s| ==> TrimChar(s[i])
  }

  lemma {:induction false} RTrimDrops(s: string, junk: string)
    requires Trimmed(junk) && (s == "" || !TrimChar(s[|s| - 1]))
    ensures RTrim(s + junk) == s
    decreases |junk|
  {
    if junk == "" {
      Nothing(s);
    } else {
      var last := |junk| - 1;
      assert (s + junk)[..|s + junk| - 1] == s + junk[..last] && (s + junk)[|s + junk| - 1] == junk[last];
      RTrimDrops(s, junk[..last]);
    }
  }

  lemma PaddingTrimmed(opts: Settings, pad: string, eol: string)
    requires Padding(opts, pad) && (eol == "" || LineEnd(eol))
    ensures Trimmed(pad + eol)
  {
    forall i | 0 <= i < |pad + eol| ensures TrimChar((pad + eol)[i]) {
      if i < |pad| { assert (pad + eol)[i] == pad[i]; } else { assert (pad + eol)[i] == eol[i - |pad|]; }
    }
  }

  lemma ValueRead(opts: Settings, body: string, junk: string)
    requires Body(opts, body) && Trimmed(junk)
    ensures var rest := body + junk; var v := rest[Spaces(rest)..];
            !StartsTriple(v) && Dequote(RTrim(v)) == Inner(body)
  {
    if body == "" {
      Nothing(junk);
      NothingRead(junk);
    } else {
      SpacesNone(body, junk);
      RTrimDrops(body, junk);
      NotTriple(body, junk);
      DequotedBody(opts, body);
    }
  }

  lemma NothingRead(junk: string)
    requires Trimmed(junk)
    ensures var v := junk[Spaces(junk)..]; !StartsTriple(v) && RTrim(v) == ""
  {
    TrimmedBehind(junk, Spaces(junk));
    TrimmedOnly(junk[Spaces(junk)..]);
  }

  lemma TrimmedBehind(s: string, n: nat)
    requires Trimmed(s) && n <= |s|
    ensures Trimmed(s[n..])
  {}

  lemma TrimmedOnly(s: string)
    requires Trimmed(s)
    ensures !StartsTriple(s) && RTrim(s) == ""
  {
    Nothing(s);
    RTrimDrops("", s);
    if |s| >= 3 { assert s[..3][0] == s[0]; }
  }

  lemma SpacesNone(body: string, junk: string)
    requires body != "" && !Space(body[0])
    ensures var rest := body + junk; Spaces(rest) == 0 && rest[Spaces(rest)..] == rest
  {
    assert (body + junk)[0] == body[0];
  }

  lemma DequotedBody(opts: Settings, body: string)
    requires Body(opts, body)
    ensures Dequote(body) == Inner(body)
  {
    if |body| >= 2 { assert forall c :: c in body[1..|body| - 1] ==> c in body; }
  }

  lemma NotTriple(body: string, junk: string)
    requires body != "" && Trimmed(junk) && !(|body| >= 3 && body[0] == '"' && body[1] == '"' && body[2] == '"')
    ensures !StartsTriple(body + junk)
  {
    var rest := body + junk;
    if |rest| >= 3 {
      var j := if |body| < 3 then |body| else if body[0] != '"' then 0 else if body[1] != '"' then 1 else 2;
      assert rest[j] == if |body| < 3 then junk[0] else body[j];
      assert rest[..3][j] != TRIPLE[j];
    }
  }

  /** The event of such a line. */
  lemma LineLexed(opts: Settings, a: Spelled, end: string)
    requires WellSpelled(opts, a) && (end == "" || LineEnd(end))
    ensures Lex([Spell(a) + end]) == [Setting(Key(a), Inner(a.body), true)]
  {
    var line, rest := Spell(a) + end, a.body + (a.pad + end);
    AssignmentFound(opts, a, end);
    PaddingTrimmed(opts, a.pad, end);
    ValueRead(opts, a.body, a.pad + end);
    NoHeader(opts, a, end);
    Cons(line, []);
  }

  lemma NoHeader(opts: Settings, a: Spelled, end: string)
    requires WellSpelled(opts, a)
    ensures var line := Spell(a) + end; |line| > 1 && HeaderOf(line) == None
  {
    SpelledWith(a, end);
    assert Key(a)[0] == (if a.hidden then '.' else a.name[0]);
    assert (Spell(a) + end)[0] == if a.lead == "" then Key(a)[0] else a.lead[0];
  }

  lemma NoNewline(opts: Settings, a: Spelled)
    requires WellSpelled(opts, a)
    ensures '\n' !in Spell(a) && (opts.fixNewlines ==> '\r' !in Spell(a)) && Spell(a) != ""
  {}

  lemma OneLineFile(opts: Settings, line: string, eol: string)
    requires line != "" && '\n' !in line && (opts.fixNewlines ==> '\r' !in line) && (eol == "" || LineEnd(eol))
    ensures SplitLines(Fixed(opts, line + eol)) == [line + EndFixed(opts, eol)]
  {
    var end := EndFixed(opts, eol);
    FixedLine(opts, line, eol, "");
    Nothing(eol);
    Nothing(end);
    assert Fixed(opts, "") == "";
    if end == "" {
      Nothing(line);
      SplitLast(line);
    } else {
      SplitOne(line, end, "");
    }
  }

  lemma TwoLines(opts: Settings, first: string, line: string, eol: string)
    requires '\n' !in first && '\n' !in line && LineEnd(eol)
    requires opts.fixNewlines ==> '\r' !in first && '\r' !in line
    ensures var end := EndFixed(opts, eol);
            SplitLines(Fixed(opts, first + (eol + (line + eol)))) == [first + end, line + end]
  {
    var end := EndFixed(opts, eol);
    FixedLine(opts, first, eol, line + eol);
    FixedLine(opts, line, eol, "");
    Nothing(eol);
    Nothing(end);
    assert Fixed(opts, "") == "";
    SplitOne(first, end, line + end);
    SplitOne(line, end, "");
  }

  lemma HeaderLexed(header: string, end: string, next: string)
    requires ']' !in header && '\n' !in header
    ensures Lex(["[" + header + "]" + end, next]) == [Section(header)] + Lex([next])
  {
    var line := "[" + header + "]" + end;
    BracketWithin(header, end);
    assert line[1..] == header + "]" + end && line[1..][..|header|] == header;
    Cons(line, [next]);
    assert [line] + [next] == [line, next];
  }

  lemma {:induction false} BracketWithin(name: string, end: string)
    requires ']' !in name && '\n' !in name
    ensures ToBracket(name + "]" + end) == Some(|name|)
  {
    if name != "" {
      assert (name + "]" + end)[1..] == name[1..] + "]" + end;
      BracketWithin(name[1..], end);
    }
  }

  lemma SaysNothing(gap: string, c: char, rest: string)
    requires Gap(gap) && !WordChar(c) && c != '.' && c != '[' && !Space(c)
    ensures First([gap + ([c] + rest)]) == (None, 1)
  {
    var line := gap + ([c] + rest);
    Cons(c, rest);
    SpacesGap(gap, [c] + rest);
    TakeDrop(gap, [c] + rest);
    assert line[Spaces(line)..] == [c] + rest;
    assert line[0] == if gap == "" then c else gap[0];
    assert ([c] + rest)[0..] == [c] + rest && WordChars([c] + rest) == 0;
    assert HeaderOf(line) == None && AssignmentOf(line) == None;
  }
}
